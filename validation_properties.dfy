/**
 * What the policy validator of module Validation guarantees.
 *
 * `Accepts` states, line by line and without the validator's control flow,
 * what an accepted diff satisfies; ValidateAccepts proves that the validator
 * accepts exactly those diffs. The remaining lemmas pin down which message a
 * rejection carries and which inputs the result depends on.
 */
module ValidationProperties {
  import opened Results
  import opened Text
  import opened Validation

  // ---------------------------------------------------------------------------
  // The extracted lists read line by line
  // ---------------------------------------------------------------------------

  /** The header list holds exactly the "---"/"+++" lines, in diff order. */
  lemma {:induction false} HeaderLinesMeaning(lines: seq<string>)
    ensures forall x :: x in HeaderLines(lines) <==> x in lines && IsHeaderLine(x)
    ensures |HeaderLines(lines)| <= |lines|
    decreases |lines|
  {
    if lines != [] {
      HeaderLinesMeaning(lines[1..]);
      assert forall x :: x in lines <==> x == lines[0] || x in lines[1..];
    }
  }

  /** A name is captured exactly when some line matches the file-name pattern
      with that name. */
  lemma {:induction false} FilesInDiffMeaning(lines: seq<string>, name: string)
    ensures name in FilesInDiff(lines) <==> exists j :: 0 <= j < |lines| && FileName(lines[j]) == Some(name)
    decreases |lines|
  {
    if lines != [] {
      FilesInDiffMeaning(lines[1..], name);
      assert forall j :: 0 < j < |lines| ==> lines[j] == lines[1..][j - 1];
    }
  }

  /** No added line contains a needle exactly when no line that is an
      addition contains it once its '+' is dropped. */
  lemma {:induction false} AddedLinesFree(lines: seq<string>, needle: string)
    ensures !AnyContains(AddedLines(lines), needle) <==>
      forall j :: 0 <= j < |lines| && IsAddition(lines[j]) ==> !Contains(lines[j][1..], needle)
    decreases |lines|
  {
    if lines != [] {
      var rest := lines[1..];
      AddedLinesFree(rest, needle);
      AddedLinesStep(lines, needle);
      assert (forall j :: 0 <= j < |lines| && IsAddition(lines[j]) ==> !Contains(lines[j][1..], needle)) <==>
        (IsAddition(lines[0]) ==> !Contains(lines[0][1..], needle)) &&
        (forall j :: 0 <= j < |rest| && IsAddition(rest[j]) ==> !Contains(rest[j][1..], needle))
      by {
        assert forall j :: 0 < j < |lines| ==> lines[j] == rest[j - 1];
        assert forall j :: 0 <= j < |rest| ==> rest[j] == lines[j + 1];
      }
    }
  }

  lemma AddedLinesStep(lines: seq<string>, needle: string)
    requires lines != []
    ensures !AnyContains(AddedLines(lines), needle) <==>
      (IsAddition(lines[0]) ==> !Contains(lines[0][1..], needle)) && !AnyContains(AddedLines(lines[1..]), needle)
  {
    var added := AddedLines(lines);
    if IsAddition(lines[0]) {
      assert added == [lines[0][1..]] + AddedLines(lines[1..]);
      assert added[0] == lines[0][1..] && added[1..] == AddedLines(lines[1..]);
    } else {
      assert added == [] + AddedLines(lines[1..]);
      assert added == AddedLines(lines[1..]);
    }
  }

  /** Every context text is an original line exactly when every line that
      starts with a space is one once the space is dropped. */
  lemma {:induction false} ContextLinesKnown(lines: seq<string>, originalLines: seq<string>)
    ensures (forall c :: c in ContextLines(lines) ==> c in originalLines) <==>
      forall j :: 0 <= j < |lines| && StartsWithChar(lines[j], ' ') ==> lines[j][1..] in originalLines
    decreases |lines|
  {
    if lines != [] {
      var rest := lines[1..];
      ContextLinesKnown(rest, originalLines);
      assert forall j :: 0 < j < |lines| ==> lines[j] == rest[j - 1];
      assert forall j :: 0 <= j < |rest| ==> rest[j] == lines[j + 1];
      assert ContextLines(lines) == (if StartsWithChar(lines[0], ' ') then [lines[0][1..]] else []) + ContextLines(rest);
    }
  }

  /** The context of every hunk, in order. */
  function AllContext(hunks: seq<Hunk>): seq<string>
    decreases |hunks|
  {
    if hunks == [] then [] else hunks[0].context + AllContext(hunks[1..])
  }

  lemma {:induction false} AllContextAppend(hunks: seq<Hunk>, h: Hunk)
    ensures AllContext(hunks + [h]) == AllContext(hunks) + h.context
    decreases |hunks|
  {
    if hunks == [] {
      assert [] + [h] == [h];
      assert AllContext([h]) == h.context + [];
    } else {
      assert (hunks + [h])[1..] == hunks[1..] + [h];
      AllContextAppend(hunks[1..], h);
    }
  }

  lemma CloseContext(hunks: seq<Hunk>, current: seq<string>)
    ensures AllContext(Close(hunks, current)) == AllContext(hunks) + current
  {
    if current != [] {
      AllContextAppend(hunks, Hunk(current));
    } else {
      assert AllContext(hunks) + [] == AllContext(hunks);
    }
  }

  lemma Regroup(a: seq<string>, b: seq<string>, c: seq<string>, d: seq<string>)
    ensures a + (b + c) + d == a + b + (c + d)
  {
  }

  /** A hunk header is not a context line. */
  lemma HeaderIsNotContext(line: string)
    requires StartsWith(line, "@@")
    ensures !StartsWithChar(line, ' ')
  {
    assert line[0] == line[..2][0];
  }

  /** The hunk-splitting loop regroups the context lines without losing,
      adding or reordering any. */
  lemma {:induction false} HunksFromContext(lines: seq<string>, hunks: seq<Hunk>, current: seq<string>)
    ensures AllContext(HunksFrom(lines, hunks, current)) == AllContext(hunks) + current + ContextLines(lines)
    decreases |lines|
  {
    if lines == [] {
      CloseContext(hunks, current);
      Regroup(AllContext(hunks), current, [], []);
    } else {
      var line, rest := lines[0], lines[1..];
      if StartsWith(line, "@@") {
        HunksFromContext(rest, Close(hunks, current), []);
        CloseContext(hunks, current);
        HeaderIsNotContext(line);
        assert ContextLines(lines) == [] + ContextLines(rest);
        Regroup(AllContext(hunks), current, [], ContextLines(rest));
      } else if StartsWithChar(line, ' ') {
        HunksFromContext(rest, hunks, current + [line[1..]]);
        assert ContextLines(lines) == [line[1..]] + ContextLines(rest);
        Regroup(AllContext(hunks), current, [line[1..]], ContextLines(rest));
      } else {
        HunksFromContext(rest, hunks, current);
        assert ContextLines(lines) == [] + ContextLines(rest);
        Regroup(AllContext(hunks), current, [], ContextLines(rest));
      }
    }
  }

  /** Every hunk holds at least one context line. */
  predicate NonEmptyHunks(hunks: seq<Hunk>) {
    forall i :: 0 <= i < |hunks| ==> hunks[i].context != []
  }

  lemma {:induction false} HunksFromNonEmpty(lines: seq<string>, hunks: seq<Hunk>, current: seq<string>)
    requires NonEmptyHunks(hunks)
    ensures NonEmptyHunks(HunksFrom(lines, hunks, current))
    decreases |lines|
  {
    if lines != [] {
      var line, rest := lines[0], lines[1..];
      if StartsWith(line, "@@") {
        HunksFromNonEmpty(rest, Close(hunks, current), []);
      } else if StartsWithChar(line, ' ') {
        HunksFromNonEmpty(rest, hunks, current + [line[1..]]);
      } else {
        HunksFromNonEmpty(rest, hunks, current);
      }
    }
  }

  /** The hunks of the context check hold exactly the context lines, in diff
      order, and none of them is empty. */
  lemma ContextHunksCoverContextLines(lines: seq<string>)
    ensures AllContext(ContextHunks(lines)) == ContextLines(lines)
    ensures NonEmptyHunks(ContextHunks(lines))
  {
    HunksFromContext(lines, [], []);
    assert [] + [] + ContextLines(lines) == ContextLines(lines);
    HunksFromNonEmpty(lines, [], []);
  }

  // ---------------------------------------------------------------------------
  // What an accepted diff satisfies
  // ---------------------------------------------------------------------------

  /** The target-file checks, read line by line. */
  predicate TargetFileAccepted(v: DiffValidator, diff: string) {
    var lines := SplitLines(diff);
    var headers := HeaderLines(lines);
    && (v.codex.enforceDiffPrefix ==> StartsWith(TrimStart(diff), "---"))
    && |headers| >= 2 && Contains(headers[0], v.filePath) && Contains(headers[1], v.filePath)
    && (!v.codex.allowMultipleFiles ==> |FilesInDiff(lines)| == 1)
    && exists e :: 0 <= e < |v.codex.allowedExtensions| && EndsWith(v.filePath, v.codex.allowedExtensions[e])
  }

  /** No added line, without its '+', contains a banned string. */
  predicate NoBannedAdded(banned: seq<string>, lines: seq<string>) {
    forall i, j :: 0 <= i < |banned| && 0 <= j < |lines| && IsAddition(lines[j]) ==> !Contains(lines[j][1..], banned[i])
  }

  /** The guardrails, read line by line. */
  predicate GuardrailsAccepted(v: DiffValidator, lines: seq<string>) {
    && NoBannedAdded(v.codex.bannedInsertions, lines)
    && (v.codex.forbidDeletions ==> forall j :: 0 <= j < |lines| ==> !IsNonHeaderDeletion(lines[j]))
    && (v.codex.maxLineLength > 0 ==>
          forall j :: 0 <= j < |lines| && StartsWithChar(lines[j], '+') ==> |lines[j]| - 1 <= v.codex.maxLineLength)
  }

  /** The context check, read line by line: membership, not position. */
  predicate ContextAccepted(v: DiffValidator, lines: seq<string>) {
    v.codex.minimumContextLines > 0 ==>
      forall j :: 0 <= j < |lines| && StartsWithChar(lines[j], ' ') ==> lines[j][1..] in SplitLines(v.originalContent)
  }

  predicate Accepts(v: DiffValidator, diff: string) {
    && !IsBlank(diff)
    && (v.codex.requireUnifiedDiff ==> Contains(diff, "@@"))
    && TargetFileAccepted(v, diff)
    && GuardrailsAccepted(v, SplitLines(diff))
    && ContextAccepted(v, SplitLines(diff))
  }

  lemma NotEmptyMeaning(v: DiffValidator, diff: string)
    ensures v.EnsureDiffNotEmpty(diff).Ok? <==> !IsBlank(diff)
  {
    TrimFacts(diff);
  }

  lemma TargetFileMeaning(v: DiffValidator, diff: string)
    ensures v.ValidateTargetFile(diff).Ok? <==> TargetFileAccepted(v, diff)
  {
    AnyEndsWithMeaning(v.filePath, v.codex.allowedExtensions);
  }

  /** The banned-content loop finds nothing exactly when no added line
      contains a banned string. */
  lemma NoBannedMeaning(banned: seq<string>, lines: seq<string>)
    ensures FirstBanned(banned, AddedLines(lines)).None? <==> NoBannedAdded(banned, lines)
  {
    forall i | 0 <= i < |banned|
      ensures !AnyContains(AddedLines(lines), banned[i]) <==>
        forall j :: 0 <= j < |lines| && IsAddition(lines[j]) ==> !Contains(lines[j][1..], banned[i])
    {
      AddedLinesFree(lines, banned[i]);
    }
  }

  lemma GuardrailsMeaning(v: DiffValidator, diff: string)
    ensures v.ValidateGuardrails(diff).Ok? <==> GuardrailsAccepted(v, SplitLines(diff))
  {
    var lines := SplitLines(diff);
    NoBannedMeaning(v.codex.bannedInsertions, lines);
    AnyDeletionMeaning(lines);
    AnyTooLongMeaning(lines, v.codex.maxLineLength);
  }

  lemma {:induction false} CheckContextMeaning(v: DiffValidator, context: seq<string>, originalLines: seq<string>)
    ensures v.CheckContext(context, originalLines) ==
      if v.codex.minimumContextLines > 0 ==> forall c :: c in context ==> c in originalLines
      then Ok(()) else Err(ValidationIssue(ContextMismatch))
    decreases |context|
  {
    if context != [] {
      CheckContextMeaning(v, context[1..], originalLines);
      assert forall c :: c in context ==> c == context[0] || c in context[1..];
    }
  }

  lemma {:induction false} CheckHunksMeaning(v: DiffValidator, hunks: seq<Hunk>, originalLines: seq<string>)
    ensures v.CheckHunks(hunks, originalLines) ==
      if v.codex.minimumContextLines > 0 ==> forall c :: c in AllContext(hunks) ==> c in originalLines
      then Ok(()) else Err(ValidationIssue(ContextMismatch))
    decreases |hunks|
  {
    if hunks != [] {
      CheckContextMeaning(v, hunks[0].context, originalLines);
      CheckHunksMeaning(v, hunks[1..], originalLines);
      assert AllContext(hunks) == hunks[0].context + AllContext(hunks[1..]);
    }
  }

  lemma ContextMeaning(v: DiffValidator, diff: string)
    ensures v.ValidateContext(diff) ==
      if ContextAccepted(v, SplitLines(diff)) then Ok(()) else Err(ValidationIssue(ContextMismatch))
  {
    var lines := SplitLines(diff);
    CheckHunksMeaning(v, ContextHunks(lines), SplitLines(v.originalContent));
    ContextHunksCoverContextLines(lines);
    ContextLinesKnown(lines, SplitLines(v.originalContent));
  }

  /** The validator accepts a diff exactly when the diff satisfies every
      check read line by line. */
  lemma ValidateAccepts(v: DiffValidator, diff: string)
    ensures v.Validate(diff).Ok? <==> Accepts(v, diff)
  {
    NotEmptyMeaning(v, diff);
    TargetFileMeaning(v, diff);
    GuardrailsMeaning(v, diff);
    ContextMeaning(v, diff);
  }

  // ---------------------------------------------------------------------------
  // Which message a rejection carries
  // ---------------------------------------------------------------------------

  /** A blank diff is rejected as empty, whatever the policy. */
  lemma EmptyDiffRejectedFirst(v: DiffValidator, diff: string)
    requires IsBlank(diff)
    ensures v.Validate(diff) == Err(ValidationIssue(EmptyDiff))
  {
    NotEmptyMeaning(v, diff);
  }

  /** Without "@@", a non-blank diff is rejected as not unified when the policy
      requires it, before the header prefix is looked at. */
  lemma UnifiedFormatCheckedSecond(v: DiffValidator, diff: string)
    requires !IsBlank(diff) && v.codex.requireUnifiedDiff && !Contains(diff, "@@")
    ensures v.Validate(diff) == Err(ValidationIssue(NotUnified))
  {
    NotEmptyMeaning(v, diff);
  }

  /** A non-blank diff that passes the unified-format check but does not start
      with "---" after its leading whitespace is rejected for its prefix when
      the policy enforces it. */
  lemma PrefixCheckedThird(v: DiffValidator, diff: string)
    requires !IsBlank(diff) && (v.codex.requireUnifiedDiff ==> Contains(diff, "@@"))
    requires v.codex.enforceDiffPrefix && !StartsWith(TrimStart(diff), "---")
    ensures v.Validate(diff) == Err(ValidationIssue(MissingPrefix))
  {
    NotEmptyMeaning(v, diff);
  }

  /** Past the prefix check, a diff with fewer than two "---"/"+++" lines is
      rejected for its headers. */
  lemma HeadersRequired(v: DiffValidator, diff: string)
    requires v.EnsureDiffNotEmpty(diff).Ok? && v.EnsureUnifiedDiff(diff).Ok?
    requires v.codex.enforceDiffPrefix ==> StartsWith(TrimStart(diff), "---")
    requires |HeaderLines(SplitLines(diff))| < 2
    ensures v.Validate(diff) == Err(ValidationIssue(MissingHeaders))
  {
  }

  /** Past the header count, a diff whose first or second header line does
      not contain the target path is rejected for the path. */
  lemma PathInBothHeaders(v: DiffValidator, diff: string)
    requires v.EnsureDiffNotEmpty(diff).Ok? && v.EnsureUnifiedDiff(diff).Ok?
    requires v.codex.enforceDiffPrefix ==> StartsWith(TrimStart(diff), "---")
    requires var headers := HeaderLines(SplitLines(diff));
      |headers| >= 2 && !(Contains(headers[0], v.filePath) && Contains(headers[1], v.filePath))
    ensures v.Validate(diff) == Err(ValidationIssue(UnexpectedPath))
  {
  }

  /** Once the earlier checks pass, the rejection for banned content names
      the first banned string, in list order, that some added line contains. */
  lemma FirstBannedNamed(v: DiffValidator, diff: string, k: nat)
    requires v.EnsureDiffNotEmpty(diff).Ok? && v.EnsureUnifiedDiff(diff).Ok? && v.ValidateTargetFile(diff).Ok?
    requires FirstOccurring(v.codex.bannedInsertions, AddedLines(SplitLines(diff)), k)
    ensures v.Validate(diff) == Err(ValidationIssue(BannedContent + v.codex.bannedInsertions[k]))
  {
    var banned, added := v.codex.bannedInsertions, AddedLines(SplitLines(diff));
    var r := FirstBanned(banned, added);
    assert r.Some?;
    var k' :| FirstOccurring(banned, added, k') && r.value == banned[k'];
    assert k' == k;
  }

  /** Past the earlier checks and the banned content, a deletion line is
      rejected when the policy forbids deletions; "---" headers are not
      deletions. */
  lemma DeletionRejected(v: DiffValidator, diff: string, j: nat)
    requires v.EnsureDiffNotEmpty(diff).Ok? && v.EnsureUnifiedDiff(diff).Ok? && v.ValidateTargetFile(diff).Ok?
    requires NoBannedAdded(v.codex.bannedInsertions, SplitLines(diff))
    requires v.codex.forbidDeletions && j < |SplitLines(diff)| && IsNonHeaderDeletion(SplitLines(diff)[j])
    ensures v.Validate(diff) == Err(ValidationIssue(DeletionsForbidden))
  {
    NoBannedMeaning(v.codex.bannedInsertions, SplitLines(diff));
    AnyDeletionMeaning(SplitLines(diff));
  }

  /** Past the deletion check, a line starting with '+' whose text after the
      '+' is longer than a positive maximum is rejected; "+++" headers count
      too. */
  lemma LongLineRejected(v: DiffValidator, diff: string, j: nat)
    requires v.EnsureDiffNotEmpty(diff).Ok? && v.EnsureUnifiedDiff(diff).Ok? && v.ValidateTargetFile(diff).Ok?
    requires NoBannedAdded(v.codex.bannedInsertions, SplitLines(diff))
    requires v.codex.forbidDeletions ==> !AnyDeletion(SplitLines(diff))
    requires v.codex.maxLineLength > 0 && j < |SplitLines(diff)|
    requires StartsWithChar(SplitLines(diff)[j], '+') && |SplitLines(diff)[j]| - 1 > v.codex.maxLineLength
    ensures v.Validate(diff) == Err(ValidationIssue(LineTooLong))
  {
    NoBannedMeaning(v.codex.bannedInsertions, SplitLines(diff));
    AnyTooLongMeaning(SplitLines(diff), v.codex.maxLineLength);
  }

  /** An empty list of allowed extensions rejects every diff. */
  lemma NoExtensionsRejectsAll(v: DiffValidator, diff: string)
    requires v.codex.allowedExtensions == []
    ensures v.Validate(diff).Err?
  {
    ValidateAccepts(v, diff);
  }

  /** When multiple files are not allowed, a diff whose lines capture no file
      name, or two distinct names, is rejected. */
  lemma FileCountEnforced(v: DiffValidator, diff: string)
    requires !v.codex.allowMultipleFiles && |FilesInDiff(SplitLines(diff))| != 1
    ensures v.Validate(diff).Err?
  {
    ValidateAccepts(v, diff);
  }

  /** Past the path check, a diff whose lines capture no file name, or two
      distinct names, is rejected for the file count when several files are
      not allowed. */
  lemma MultipleFilesRejected(v: DiffValidator, diff: string)
    requires v.EnsureDiffNotEmpty(diff).Ok? && v.EnsureUnifiedDiff(diff).Ok?
    requires v.codex.enforceDiffPrefix ==> StartsWith(TrimStart(diff), "---")
    requires var headers := HeaderLines(SplitLines(diff));
      |headers| >= 2 && Contains(headers[0], v.filePath) && Contains(headers[1], v.filePath)
    requires !v.codex.allowMultipleFiles && |FilesInDiff(SplitLines(diff))| != 1
    ensures v.Validate(diff) == Err(ValidationIssue(MultipleFiles))
  {
  }

  /** Past the file count, a target path that ends with none of the allowed
      extensions is rejected for its extension. */
  lemma ExtensionRejectedLast(v: DiffValidator, diff: string)
    requires v.EnsureDiffNotEmpty(diff).Ok? && v.EnsureUnifiedDiff(diff).Ok?
    requires v.codex.enforceDiffPrefix ==> StartsWith(TrimStart(diff), "---")
    requires var headers := HeaderLines(SplitLines(diff));
      |headers| >= 2 && Contains(headers[0], v.filePath) && Contains(headers[1], v.filePath)
    requires !v.codex.allowMultipleFiles ==> |FilesInDiff(SplitLines(diff))| == 1
    requires forall e :: 0 <= e < |v.codex.allowedExtensions| ==> !EndsWith(v.filePath, v.codex.allowedExtensions[e])
    ensures v.Validate(diff) == Err(ValidationIssue(ExtensionRejected))
  {
    AnyEndsWithMeaning(v.filePath, v.codex.allowedExtensions);
  }

  /** Once every earlier check passes, a context line whose text is not a line
      of the original is rejected for the context when the minimum is
      positive. */
  lemma ContextMismatchRejected(v: DiffValidator, diff: string, j: nat)
    requires v.EnsureDiffNotEmpty(diff).Ok? && v.EnsureUnifiedDiff(diff).Ok?
    requires v.ValidateTargetFile(diff).Ok? && v.ValidateGuardrails(diff).Ok?
    requires v.codex.minimumContextLines > 0 && j < |SplitLines(diff)|
    requires StartsWithChar(SplitLines(diff)[j], ' ')
    requires SplitLines(diff)[j][1..] !in SplitLines(v.originalContent)
    ensures v.Validate(diff) == Err(ValidationIssue(ContextMismatch))
  {
    ContextMeaning(v, diff);
  }

  /** With a minimum that is not positive the context check never fails. */
  lemma ContextSkippedWhenNotPositive(v: DiffValidator, diff: string)
    requires v.codex.minimumContextLines <= 0
    ensures v.ValidateContext(diff) == Ok(())
  {
    ContextMeaning(v, diff);
  }

  /** The checks before the context check never look at the original. */
  lemma EarlyChecksIgnoreOriginal(v: DiffValidator, w: DiffValidator, diff: string)
    requires v.codex == w.codex && v.filePath == w.filePath
    ensures v.EnsureDiffNotEmpty(diff) == w.EnsureDiffNotEmpty(diff)
    ensures v.EnsureUnifiedDiff(diff) == w.EnsureUnifiedDiff(diff)
    ensures v.ValidateTargetFile(diff) == w.ValidateTargetFile(diff)
    ensures v.ValidateGuardrails(diff) == w.ValidateGuardrails(diff)
  {
  }

  /** The original content matters only through the set of its lines: two
      originals with the same lines, in any order and number, give the same
      verdict and the same message. */
  lemma ContextIsMembership(v: DiffValidator, w: DiffValidator, diff: string)
    requires v.codex == w.codex && v.filePath == w.filePath
    requires forall x :: x in SplitLines(v.originalContent) <==> x in SplitLines(w.originalContent)
    ensures v.Validate(diff) == w.Validate(diff)
  {
    EarlyChecksIgnoreOriginal(v, w, diff);
    assert v.ValidateContext(diff) == w.ValidateContext(diff) by {
      ContextMeaning(v, diff);
      ContextMeaning(w, diff);
    }
  }
}
