/**
 * The policy validator that guards the patch pipeline.
 *
 * A validator holds the codex policy, the original file content and the target
 * path, none of which it ever changes. `Validate` runs a fixed, fail-fast
 * sequence of checks over the raw diff text; the first failing check is the
 * `Err` result carrying that check's message.
 *
 * Python's `any(...)` over a list is a recursive predicate here; the three
 * list-building loops of the source are methods proved equal to the functions
 * `Validate` uses. What an accepted diff satisfies is proved in module
 * ValidationProperties.
 */
module Validation {
  import opened Results
  import opened Text

  /** The codex policy; `auditLog` and `historyDir` are paths held as text. */
  datatype CodexConfig = CodexConfig(
    name: string,
    version: string,
    allowedExtensions: seq<string>,
    forbidDeletions: bool,
    maxLineLength: int,
    minimumContextLines: int,
    bannedInsertions: seq<string>,
    enforceDiffPrefix: bool,
    auditLog: string,
    historyDir: string,
    requireUnifiedDiff: bool,
    allowMultipleFiles: bool)

  /** The exception every failing check raises. */
  datatype ValidationIssue = ValidationIssue(message: string)

  /** The context lines of one hunk, each without its leading space. */
  datatype Hunk = Hunk(context: seq<string>)

  const EmptyDiff := "Empty diff returned by LLM"
  const NotUnified := "Diff is not in unified diff format"
  const MissingPrefix := "Diff must start with file headers"
  const MissingHeaders := "Diff must contain both original and new file headers"
  const UnexpectedPath := "Diff refers to unexpected file path"
  const MultipleFiles := "Diff modifies multiple files, which is not allowed"
  const ExtensionRejected := "File extension is not allowed by codex"
  const BannedContent := "Diff attempts to insert banned content: "
  const DeletionsForbidden := "Deletions are not allowed by codex"
  const LineTooLong := "Inserted line exceeds maximum length"
  const ContextMismatch := "Context lines do not match original file, potential corruption"

  // ---------------------------------------------------------------------------
  // Line classes
  // ---------------------------------------------------------------------------

  predicate StartsWithChar(line: string, c: char) {
    |line| > 0 && line[0] == c
  }

  /** A line starting with "---" or "+++". */
  predicate IsHeaderLine(line: string) {
    StartsWith(line, "---") || StartsWith(line, "+++")
  }

  /** An added line: starts with '+' but not with "+++". */
  predicate IsAddition(line: string) {
    StartsWithChar(line, '+') && !StartsWith(line, "+++")
  }

  /** A deleted line: starts with '-' but not with "---". */
  predicate IsNonHeaderDeletion(line: string) {
    StartsWithChar(line, '-') && !StartsWith(line, "---")
  }

  predicate IsSign(c: char) {
    c == '+' || c == '-'
  }

  /** The pattern `^[+-]{3} (.+)$`: three signs in any mix, a space, then the
      captured rest of the line, which must not be empty. */
  function FileName(line: string): Option<string> {
    if |line| >= 5 && IsSign(line[0]) && IsSign(line[1]) && IsSign(line[2]) && line[3] == ' '
    then Some(line[4..])
    else None
  }

  // ---------------------------------------------------------------------------
  // What the validator extracts from the diff lines
  // ---------------------------------------------------------------------------

  /** The header lines, in diff order. */
  function HeaderLines(lines: seq<string>): (r: seq<string>)
    ensures |r| <= |lines|
    ensures forall i :: 0 <= i < |r| ==> IsHeaderLine(r[i])
    decreases |lines|
  {
    if lines == [] then []
    else (if IsHeaderLine(lines[0]) then [lines[0]] else []) + HeaderLines(lines[1..])
  }

  /** The first two header lines, or fewer when there are fewer. */
  function ExtractHeaders(lines: seq<string>): (r: seq<string>)
    ensures |r| == (if |HeaderLines(lines)| < 2 then |HeaderLines(lines)| else 2)
    ensures r == HeaderLines(lines)[..|r|]
  {
    var headers := HeaderLines(lines);
    if |headers| > 2 then headers[..2] else headers
  }

  /** The distinct names captured by the file-name pattern. */
  function FilesInDiff(lines: seq<string>): (r: set<string>)
    ensures forall f :: f in r ==> f != []
    decreases |lines|
  {
    if lines == [] then {}
    else (match FileName(lines[0]) case Some(name) => {name} case None => {}) + FilesInDiff(lines[1..])
  }

  /** The added lines without their leading '+', in diff order. */
  function AddedLines(lines: seq<string>): (r: seq<string>)
    ensures |r| <= |lines|
    decreases |lines|
  {
    if lines == [] then []
    else (if IsAddition(lines[0]) then [lines[0][1..]] else []) + AddedLines(lines[1..])
  }

  /** Every line starting with a space, without that space, in diff order. */
  function ContextLines(lines: seq<string>): (r: seq<string>)
    ensures |r| <= |lines|
    decreases |lines|
  {
    if lines == [] then []
    else (if StartsWithChar(lines[0], ' ') then [lines[0][1..]] else []) + ContextLines(lines[1..])
  }

  /** The hunk list after closing the context collected so far; an empty
      context is dropped. */
  function Close(hunks: seq<Hunk>, current: seq<string>): seq<Hunk> {
    if current != [] then hunks + [Hunk(current)] else hunks
  }

  /** The hunk-splitting loop from a given state: `hunks` closed so far and
      `current` the open context. A line starting with "@@" closes the open
      context; a line starting with a space extends it; others are skipped. */
  function HunksFrom(lines: seq<string>, hunks: seq<Hunk>, current: seq<string>): (r: seq<Hunk>)
    ensures (forall i :: 0 <= i < |hunks| ==> hunks[i].context != []) ==>
      forall i :: 0 <= i < |r| ==> r[i].context != []
    decreases |lines|
  {
    if lines == [] then Close(hunks, current)
    else if StartsWith(lines[0], "@@") then HunksFrom(lines[1..], Close(hunks, current), [])
    else if StartsWithChar(lines[0], ' ') then HunksFrom(lines[1..], hunks, current + [lines[0][1..]])
    else HunksFrom(lines[1..], hunks, current)
  }

  function ContextHunks(lines: seq<string>): (r: seq<Hunk>)
    ensures forall i :: 0 <= i < |r| ==> r[i].context != []
  {
    HunksFrom(lines, [], [])
  }

  method FindAllFiles(lines: seq<string>) returns (files: set<string>)
    ensures files == FilesInDiff(lines)
  {
    var found: seq<string> := [];
    for i := 0 to |lines|
      invariant (set f | f in found) + FilesInDiff(lines[i..]) == FilesInDiff(lines)
    {
      assert lines[i..][1..] == lines[i + 1..];
      match FileName(lines[i]) {
        case Some(name) =>
          assert (set f | f in found + [name]) == (set f | f in found) + {name};
          found := found + [name];
        case None =>
      }
    }
    files := set f | f in found;
  }

  method ExtractAddedLines(lines: seq<string>) returns (added: seq<string>)
    ensures added == AddedLines(lines)
  {
    added := [];
    for i := 0 to |lines|
      invariant added + AddedLines(lines[i..]) == AddedLines(lines)
    {
      assert lines[i..][1..] == lines[i + 1..];
      var line := lines[i];
      if IsAddition(line) {
        assert added + [line[1..]] + AddedLines(lines[i + 1..]) == added + AddedLines(lines[i..]);
        added := added + [line[1..]];
      } else {
        assert AddedLines(lines[i..]) == AddedLines(lines[i + 1..]);
      }
    }
    assert added + [] == added;
  }

  method ExtractHunks(lines: seq<string>) returns (hunks: seq<Hunk>)
    ensures hunks == ContextHunks(lines)
  {
    hunks := [];
    var current: seq<string> := [];
    for i := 0 to |lines|
      invariant HunksFrom(lines[i..], hunks, current) == ContextHunks(lines)
    {
      assert lines[i..][1..] == lines[i + 1..];
      var line := lines[i];
      if StartsWith(line, "@@") {
        if current != [] {
          hunks := hunks + [Hunk(current)];
          current := [];
        }
      } else if StartsWithChar(line, ' ') {
        current := current + [line[1..]];
      }
    }
    if current != [] {
      hunks := hunks + [Hunk(current)];
    }
  }

  // ---------------------------------------------------------------------------
  // The `any(...)` tests
  // ---------------------------------------------------------------------------

  /** Some line contains `needle`. */
  predicate AnyContains(lines: seq<string>, needle: string)
    decreases |lines|
  {
    lines != [] && (Contains(lines[0], needle) || AnyContains(lines[1..], needle))
  }

  lemma {:induction false} AnyContainsMeaning(lines: seq<string>, needle: string)
    ensures AnyContains(lines, needle) <==> exists j :: 0 <= j < |lines| && Contains(lines[j], needle)
    decreases |lines|
  {
    if lines != [] {
      AnyContainsMeaning(lines[1..], needle);
      assert forall j :: 0 < j < |lines| ==> lines[j] == lines[1..][j - 1];
    }
  }

  /** `banned[k]` occurs in some added line and no earlier entry does. */
  predicate FirstOccurring(banned: seq<string>, added: seq<string>, k: int) {
    0 <= k < |banned| && AnyContains(added, banned[k]) &&
    forall i :: 0 <= i < k ==> !AnyContains(added, banned[i])
  }

  /** The first banned string, in list order, that some added line contains. */
  function FirstBanned(banned: seq<string>, added: seq<string>): (r: Option<string>)
    ensures r.None? <==> forall i :: 0 <= i < |banned| ==> !AnyContains(added, banned[i])
    ensures r.Some? ==> exists k :: FirstOccurring(banned, added, k) && r.value == banned[k]
    decreases |banned|
  {
    if banned == [] then None
    else if AnyContains(added, banned[0]) then Some(banned[0])
    else
      var r := FirstBanned(banned[1..], added);
      assert forall i :: 1 <= i < |banned| ==> banned[i] == banned[1..][i - 1];
      if r.Some? then
        ghost var k :| FirstOccurring(banned[1..], added, k) && r.value == banned[1..][k];
        assert FirstOccurring(banned, added, k + 1);
        r
      else r
  }

  predicate AnyDeletion(lines: seq<string>)
    decreases |lines|
  {
    lines != [] && (IsNonHeaderDeletion(lines[0]) || AnyDeletion(lines[1..]))
  }

  lemma {:induction false} AnyDeletionMeaning(lines: seq<string>)
    ensures AnyDeletion(lines) <==> exists j :: 0 <= j < |lines| && IsNonHeaderDeletion(lines[j])
    decreases |lines|
  {
    if lines != [] {
      AnyDeletionMeaning(lines[1..]);
      assert forall j :: 0 < j < |lines| ==> lines[j] == lines[1..][j - 1];
    }
  }

  /** Some line starting with '+' (headers included) is longer than `limit`
      once its first character is dropped. */
  predicate AnyTooLong(lines: seq<string>, limit: int)
    decreases |lines|
  {
    lines != [] && ((StartsWithChar(lines[0], '+') && |lines[0]| - 1 > limit) || AnyTooLong(lines[1..], limit))
  }

  lemma {:induction false} AnyTooLongMeaning(lines: seq<string>, limit: int)
    ensures AnyTooLong(lines, limit) <==>
      exists j :: 0 <= j < |lines| && StartsWithChar(lines[j], '+') && |lines[j]| - 1 > limit
    decreases |lines|
  {
    if lines != [] {
      AnyTooLongMeaning(lines[1..], limit);
      assert forall j :: 0 < j < |lines| ==> lines[j] == lines[1..][j - 1];
    }
  }

  /** The path ends with one of the extensions. */
  predicate AnyEndsWith(path: string, extensions: seq<string>)
    decreases |extensions|
  {
    extensions != [] && (EndsWith(path, extensions[0]) || AnyEndsWith(path, extensions[1..]))
  }

  lemma {:induction false} AnyEndsWithMeaning(path: string, extensions: seq<string>)
    ensures AnyEndsWith(path, extensions) <==> exists e :: 0 <= e < |extensions| && EndsWith(path, extensions[e])
    decreases |extensions|
  {
    if extensions != [] {
      AnyEndsWithMeaning(path, extensions[1..]);
      assert forall e :: 0 < e < |extensions| ==> extensions[e] == extensions[1..][e - 1];
    }
  }

  /** The message of some check of the validator. */
  predicate IsIssueMessage(m: string) {
    || m in {EmptyDiff, NotUnified, MissingPrefix, MissingHeaders, UnexpectedPath, MultipleFiles,
             ExtensionRejected, DeletionsForbidden, LineTooLong, ContextMismatch}
    || StartsWith(m, BannedContent)
  }

  // ---------------------------------------------------------------------------
  // The validator
  // ---------------------------------------------------------------------------

  /** The policy, the original content and the target path as text. */
  datatype DiffValidator = DiffValidator(codex: CodexConfig, originalContent: string, filePath: string) {

    /** The checks in their fixed order; the first failure is the result. */
    function Validate(diff: string): (r: Result<(), ValidationIssue>)
      ensures r.Err? ==> IsIssueMessage(r.error.message)
    {
      var _ :- EnsureDiffNotEmpty(diff);
      var _ :- EnsureUnifiedDiff(diff);
      var _ :- ValidateTargetFile(diff);
      var _ :- ValidateGuardrails(diff);
      ValidateContext(diff)
    }

    function EnsureDiffNotEmpty(diff: string): (r: Result<(), ValidationIssue>)
      ensures r.Ok? <==> !IsBlank(diff)
      ensures r.Err? ==> r.error == ValidationIssue(EmptyDiff)
    {
      TrimFacts(diff);
      if Trim(diff) == [] then Err(ValidationIssue(EmptyDiff)) else Ok(())
    }

    function EnsureUnifiedDiff(diff: string): (r: Result<(), ValidationIssue>)
      ensures r.Err? ==> r.error == ValidationIssue(NotUnified)
      ensures Contains(diff, "@@") ==> r.Ok?
    {
      if codex.requireUnifiedDiff && !Contains(diff, "@@") then Err(ValidationIssue(NotUnified)) else Ok(())
    }

    /** Header prefix, the two headers, the path in both, a single file when
        required, and the extension, in that order. */
    function ValidateTargetFile(diff: string): (r: Result<(), ValidationIssue>)
      ensures r.Err? ==> r.error.message in {MissingPrefix, MissingHeaders, UnexpectedPath, MultipleFiles, ExtensionRejected}
      ensures r.Ok? ==>
        var headers := HeaderLines(SplitLines(diff));
        && |headers| >= 2 && Contains(headers[0], filePath) && Contains(headers[1], filePath)
        && (!codex.allowMultipleFiles ==> |FilesInDiff(SplitLines(diff))| == 1)
        && exists e :: 0 <= e < |codex.allowedExtensions| && EndsWith(filePath, codex.allowedExtensions[e])
    {
      AnyEndsWithMeaning(filePath, codex.allowedExtensions);
      if codex.enforceDiffPrefix && !StartsWith(TrimStart(diff), "---") then
        Err(ValidationIssue(MissingPrefix))
      else
        var headers := ExtractHeaders(SplitLines(diff));
        if |headers| != 2 then Err(ValidationIssue(MissingHeaders))
        else if !Contains(headers[0], filePath) || !Contains(headers[1], filePath) then
          Err(ValidationIssue(UnexpectedPath))
        else if !codex.allowMultipleFiles && |FilesInDiff(SplitLines(diff))| != 1 then
          Err(ValidationIssue(MultipleFiles))
        else if !AnyEndsWith(filePath, codex.allowedExtensions) then
          Err(ValidationIssue(ExtensionRejected))
        else Ok(())
    }

    /** Banned insertions, then deletions when forbidden, then line lengths. */
    function ValidateGuardrails(diff: string): (r: Result<(), ValidationIssue>)
      ensures r.Err? ==>
        || r.error.message == DeletionsForbidden
        || r.error.message == LineTooLong
        || exists k :: FirstOccurring(codex.bannedInsertions, AddedLines(SplitLines(diff)), k) &&
             r.error.message == BannedContent + codex.bannedInsertions[k]
    {
      var lines := SplitLines(diff);
      match FirstBanned(codex.bannedInsertions, AddedLines(lines))
      case Some(banned) => Err(ValidationIssue(BannedContent + banned))
      case None =>
        if codex.forbidDeletions && AnyDeletion(lines) then Err(ValidationIssue(DeletionsForbidden))
        else ValidateLineLengths(lines)
    }

    /** With a positive maximum, no line starting with '+' may be longer than
        the maximum once the '+' is dropped. */
    function ValidateLineLengths(lines: seq<string>): (r: Result<(), ValidationIssue>)
      ensures r.Err? ==> r.error == ValidationIssue(LineTooLong)
      ensures r.Ok? <==> (codex.maxLineLength > 0 ==>
        forall j :: 0 <= j < |lines| && StartsWithChar(lines[j], '+') ==> |lines[j]| - 1 <= codex.maxLineLength)
    {
      AnyTooLongMeaning(lines, codex.maxLineLength);
      if codex.maxLineLength <= 0 then Ok(())
      else if AnyTooLong(lines, codex.maxLineLength) then Err(ValidationIssue(LineTooLong))
      else Ok(())
    }

    function ValidateContext(diff: string): (r: Result<(), ValidationIssue>)
      ensures r == Ok(()) || r == Err(ValidationIssue(ContextMismatch))
      ensures codex.minimumContextLines <= 0 ==> r == Ok(())
    {
      CheckHunks(ContextHunks(SplitLines(diff)), SplitLines(originalContent))
    }

    /** The loop over the hunks. */
    function CheckHunks(hunks: seq<Hunk>, originalLines: seq<string>): (r: Result<(), ValidationIssue>)
      ensures r == Ok(()) || r == Err(ValidationIssue(ContextMismatch))
      ensures codex.minimumContextLines <= 0 ==> r == Ok(())
      decreases |hunks|
    {
      if hunks == [] then Ok(())
      else
        var _ :- CheckContext(hunks[0].context, originalLines);
        CheckHunks(hunks[1..], originalLines)
    }

    /** The loop over one hunk's context lines: skipped line by line when the
        minimum is not positive, otherwise each must be an original line. */
    function CheckContext(context: seq<string>, originalLines: seq<string>): (r: Result<(), ValidationIssue>)
      ensures r == Ok(()) || r == Err(ValidationIssue(ContextMismatch))
      ensures codex.minimumContextLines <= 0 ==> r == Ok(())
      ensures (forall c :: c in context ==> c in originalLines) ==> r == Ok(())
      decreases |context|
    {
      if context == [] then Ok(())
      else if codex.minimumContextLines <= 0 then CheckContext(context[1..], originalLines)
      else if context[0] !in originalLines then Err(ValidationIssue(ContextMismatch))
      else CheckContext(context[1..], originalLines)
    }
  }
}
