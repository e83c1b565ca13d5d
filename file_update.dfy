/**
 * The unified-diff parser and applier of the file update engine.
 *
 * A diff is read as a list of lines. The parser groups the lines into hunks,
 * each anchored at a 0-based line of the original; the applier walks a cursor
 * over the original lines, copying the gaps between hunks, emitting context and
 * inserted lines from the diff text and checking deleted lines against the
 * original. Raised exceptions are `Err` results.
 *
 * Each loop of `_parse_hunks` and `_apply_unified_diff` is a method proved equal to a recursive function that
 * carries the loop's variables as parameters; the properties of those functions
 * are proved in module PatchProperties.
 */
module FileUpdate {
  import opened Results
  import opened Text
  import Validation

  /** The two exception classes that applying a diff can raise: this module's
      own error, and the validator's issue, which the parser raises when it
      finds no hunk. */
  datatype PatchFailure = PatchApplyError(message: string) | Rejected(issue: Validation.ValidationIssue)

  /** A hunk: the 0-based original line it is anchored at and its body lines,
      each still carrying its leading ' ', '-' or '+'. */
  datatype Hunk = Hunk(origStart: nat, lines: seq<string>)

  const DeletionMismatch := "Hunk deletion does not match original content"
  const CursorExceeded := "Patch cursor exceeded original content length"
  const NoHunksFound := "No hunks found in diff"
  const NoHunksIssue := Rejected(Validation.ValidationIssue(NoHunksFound))

  // ---------------------------------------------------------------------------
  // Hunk headers
  // ---------------------------------------------------------------------------

  function InvalidHeader(header: string): PatchFailure {
    PatchApplyError("Invalid hunk header: " + header)
  }

  /** The digits of the old-file start in a header: the text between the first
      and the second "@@", trimmed, up to its first space (the "-s,c" token),
      then up to its first comma, with every '-' removed. None when that text
      has no space, i.e. does not split into two space-separated tokens. */
  function StartToken(header: string): (r: Option<string>)
    ensures r.Some? ==> '-' !in r.value && ',' !in r.value && ' ' !in r.value
  {
    match AfterMarker(header)
    case None => None
    case Some(rest) =>
      var inner := Trim(UpToMarker(rest));
      if ' ' !in inner then None
      else Some(RemoveAll(TakeUntil(TakeUntil(inner, ' '), ','), '-'))
  }

  /** `@@ -s[,c] +t[,d] @@` read as the 0-based start max(s - 1, 0); the
      counts and the new-file numbers are ignored. */
  function ParseHunkHeader(header: string): (r: Result<nat, PatchFailure>)
    ensures r.Err? ==> r.error == InvalidHeader(header)
    ensures r.Ok? <==> StartToken(header).Some? && IsDigits(StartToken(header).value)
  {
    match StartToken(header)
    case None => Err(InvalidHeader(header))
    case Some(digits) =>
      if IsDigits(digits) then
        var s := DecimalValue(digits);
        Ok(if s - 1 > 0 then s - 1 else 0)
      else Err(InvalidHeader(header))
  }

  // ---------------------------------------------------------------------------
  // Splitting the diff into hunks
  // ---------------------------------------------------------------------------

  /** The line starts with "@@". */
  predicate IsHunkHeader(line: string) {
    |line| >= 2 && line[0] == '@' && line[1] == '@'
  }

  /** Lines the parser skips wherever they appear, inside hunk bodies too. */
  predicate IsFileHeader(line: string) {
    StartsWith(line, "---") || StartsWith(line, "+++") || StartsWith(line, "diff --git")
  }

  /** A line that becomes part of a hunk body. */
  predicate IsBodyLine(line: string) {
    !IsHunkHeader(line) && !IsFileHeader(line)
  }

  /** The hunk list after closing the body collected so far; an empty body is
      dropped. */
  function Flush(hunks: seq<Hunk>, current: seq<string>, start: nat): seq<Hunk> {
    if current != [] then hunks + [Hunk(start, current)] else hunks
  }

  /** The parse loop from a given state: `hunks` closed so far, `current` the
      open body and `start` its anchor. */
  function ParseFrom(lines: seq<string>, hunks: seq<Hunk>, current: seq<string>, start: nat)
    : (r: Result<seq<Hunk>, PatchFailure>)
    ensures r.Ok? ==> |r.value| > 0
    ensures r.Err? ==> r.error.PatchApplyError? || r.error == NoHunksIssue
    decreases |lines|
  {
    if lines == [] then
      var all := Flush(hunks, current, start);
      if all == [] then Err(NoHunksIssue) else Ok(all)
    else
      var line := lines[0];
      if IsHunkHeader(line) then
        match ParseHunkHeader(line)
        case Err(e) => Err(e)
        case Ok(s) => ParseFrom(lines[1..], Flush(hunks, current, start), [], s)
      else if IsFileHeader(line) then
        ParseFrom(lines[1..], hunks, current, start)
      else
        ParseFrom(lines[1..], hunks, current + [line], start)
  }

  /** The hunks of a diff's lines; lines before the first "@@" form a hunk
      anchored at 0. */
  function ParseLines(lines: seq<string>): (r: Result<seq<Hunk>, PatchFailure>)
    ensures r.Ok? ==> |r.value| > 0
    ensures r.Err? ==> r.error.PatchApplyError? || r.error == NoHunksIssue
  {
    ParseFrom(lines, [], [], 0)
  }

  method ParseHunks(diffLines: seq<string>) returns (r: Result<seq<Hunk>, PatchFailure>)
    ensures r == ParseLines(diffLines)
  {
    var hunks: seq<Hunk> := [];
    var current: seq<string> := [];
    var origStart: nat := 0;
    for i := 0 to |diffLines|
      invariant ParseFrom(diffLines[i..], hunks, current, origStart) == ParseLines(diffLines)
    {
      assert diffLines[i..][1..] == diffLines[i + 1..];
      var line := diffLines[i];
      if IsHunkHeader(line) {
        if current != [] {
          hunks := hunks + [Hunk(origStart, current)];
        }
        current := [];
        var parsed := ParseHunkHeader(line);
        if parsed.Err? {
          return Err(parsed.error);
        }
        origStart := parsed.value;
      } else if IsFileHeader(line) {
        // file headers are skipped
      } else {
        current := current + [line];
      }
    }
    if current != [] {
      hunks := hunks + [Hunk(origStart, current)];
    }
    if hunks == [] {
      return Err(NoHunksIssue);
    }
    return Ok(hunks);
  }

  // ---------------------------------------------------------------------------
  // Applying hunks
  // ---------------------------------------------------------------------------

  /** Output produced so far and the cursor into the original lines. */
  datatype Progress = Progress(out: seq<string>, cursor: nat)

  /** The line starts with ' '. */
  predicate IsContext(line: string) {
    |line| > 0 && line[0] == ' '
  }

  /** The line starts with '-'. */
  predicate IsDeletion(line: string) {
    |line| > 0 && line[0] == '-'
  }

  /** The line starts with '+'. */
  predicate IsInsertion(line: string) {
    |line| > 0 && line[0] == '+'
  }

  /** Python's slice s[lo:hi] for non-negative bounds: clamped to the sequence,
      empty when hi <= lo. */
  function Slice(s: seq<string>, lo: nat, hi: nat): (r: seq<string>)
    ensures lo <= hi <= |s| ==> r == s[lo..hi]
    ensures lo <= |s| <= hi ==> r == s[lo..]
    ensures hi <= lo || |s| <= lo ==> r == []
  {
    var l := if lo < |s| then lo else |s|;
    var h := if hi < |s| then hi else |s|;
    if l < h then s[l..h] else []
  }

  /** The inner loop over one hunk's body: context lines are emitted from the
      diff text and advance the cursor, deletions must equal the original line
      at the cursor and advance it, insertions are emitted, anything else is
      ignored. */
  function ApplyLines(orig: seq<string>, lines: seq<string>, out: seq<string>, cursor: nat)
    : (r: Result<Progress, PatchFailure>)
    ensures r.Err? ==> r.error == PatchApplyError(DeletionMismatch)
    ensures r.Ok? ==> cursor <= r.value.cursor <= cursor + |lines|
    decreases |lines|
  {
    if lines == [] then Ok(Progress(out, cursor))
    else
      var line := lines[0];
      if IsContext(line) then
        ApplyLines(orig, lines[1..], out + [line[1..]], cursor + 1)
      else if IsDeletion(line) then
        if cursor >= |orig| || orig[cursor] != line[1..] then Err(PatchApplyError(DeletionMismatch))
        else ApplyLines(orig, lines[1..], out, cursor + 1)
      else if IsInsertion(line) then
        ApplyLines(orig, lines[1..], out + [line[1..]], cursor)
      else
        ApplyLines(orig, lines[1..], out, cursor)
  }

  /** The outer loop over the hunks: copy the gap from the cursor to the hunk's
      anchor, move the cursor to the anchor (possibly backwards), run the body,
      and fail if the cursor ends past the original. */
  function ApplyHunks(orig: seq<string>, hunks: seq<Hunk>, out: seq<string>, cursor: nat)
    : (r: Result<Progress, PatchFailure>)
    requires cursor <= |orig|
    ensures r.Ok? ==> r.value.cursor <= |orig|
    ensures r.Err? ==> r.error == PatchApplyError(DeletionMismatch) || r.error == PatchApplyError(CursorExceeded)
    decreases |hunks|
  {
    if hunks == [] then Ok(Progress(out, cursor))
    else
      var h := hunks[0];
      match ApplyLines(orig, h.lines, out + Slice(orig, cursor, h.origStart), h.origStart)
      case Err(e) => Err(e)
      case Ok(p) =>
        if p.cursor > |orig| then Err(PatchApplyError(CursorExceeded))
        else ApplyHunks(orig, hunks[1..], p.out, p.cursor)
  }

  /** The new lines for original lines and diff lines: the hunks applied, then
      the original from the final cursor on. */
  function PatchLines(orig: seq<string>, diffLines: seq<string>): (r: Result<seq<string>, PatchFailure>)
    ensures r.Err? ==> r.error.PatchApplyError? || r.error == NoHunksIssue
  {
    match ParseLines(diffLines)
    case Err(e) => Err(e)
    case Ok(hunks) =>
      match ApplyHunks(orig, hunks, [], 0)
      case Err(e) => Err(e)
      case Ok(p) => Ok(p.out + orig[p.cursor..])
  }

  /** The patched text: the new lines joined by '\n', with a final '\n' when
      the original content had one. */
  function ApplyDiff(originalContent: string, diff: string): (r: Result<string, PatchFailure>)
    ensures r.Err? ==> r.error.PatchApplyError? || r.error == NoHunksIssue
    ensures r.Ok? && EndsWith(originalContent, "\n") ==> EndsWith(r.value, "\n")
  {
    match PatchLines(SplitLines(originalContent), SplitLines(diff))
    case Err(e) => Err(e)
    case Ok(newLines) => Ok(Render(newLines, EndsWith(originalContent, "\n")))
  }

  /** The inner loop over one hunk's body, from the output and cursor in
      force at the hunk's anchor. */
  method ApplyHunkLines(orig: seq<string>, lines: seq<string>, out: seq<string>, cursor: nat)
    returns (r: Result<Progress, PatchFailure>)
    ensures r == ApplyLines(orig, lines, out, cursor)
  {
    var newLines: seq<string>, at: nat := out, cursor;
    for j := 0 to |lines|
      invariant ApplyLines(orig, lines[j..], newLines, at) == ApplyLines(orig, lines, out, cursor)
    {
      assert lines[j..][1..] == lines[j + 1..];
      var line := lines[j];
      if IsContext(line) {
        newLines := newLines + [line[1..]];
        at := at + 1;
      } else if IsDeletion(line) {
        if at >= |orig| || orig[at] != line[1..] {
          return Err(PatchApplyError(DeletionMismatch));
        }
        at := at + 1;
      } else if IsInsertion(line) {
        newLines := newLines + [line[1..]];
      }
    }
    return Ok(Progress(newLines, at));
  }

  method ApplyUnifiedDiff(originalContent: string, diff: string) returns (r: Result<string, PatchFailure>)
    ensures r == ApplyDiff(originalContent, diff)
  {
    var originalLines := SplitLines(originalContent);
    var diffLines := SplitLines(diff);
    var parsed := ParseHunks(diffLines);
    if parsed.Err? {
      return Err(parsed.error);
    }
    var hunks := parsed.value;
    var newLines: seq<string> := [];
    var cursor: nat := 0;
    for i := 0 to |hunks|
      invariant cursor <= |originalLines|
      invariant ApplyHunks(originalLines, hunks[i..], newLines, cursor)
             == ApplyHunks(originalLines, hunks, [], 0)
    {
      assert hunks[i..][1..] == hunks[i + 1..];
      var hunk := hunks[i];
      var applied := ApplyHunkLines(originalLines, hunk.lines,
                                    newLines + Slice(originalLines, cursor, hunk.origStart), hunk.origStart);
      if applied.Err? {
        return Err(applied.error);
      }
      if applied.value.cursor > |originalLines| {
        return Err(PatchApplyError(CursorExceeded));
      }
      newLines, cursor := applied.value.out, applied.value.cursor;
    }
    newLines := newLines + originalLines[cursor..];
    return Ok(Render(newLines, EndsWith(originalContent, "\n")));
  }
}
