/**
 * What the parser and the applier of module FileUpdate guarantee.
 *
 * The applier is characterised by an independent reading of a hunk: its "old
 * side" (the texts of its context and deletion lines) and its "new side" (the
 * texts of its context and insertion lines). A run succeeds exactly when every
 * deletion matches the original line it is aligned with and no hunk ends past
 * the original; the output is then the gaps between hunks followed by each
 * hunk's new side, then the rest of the original.
 */
module PatchProperties {
  import opened Results
  import opened Text
  import opened FileUpdate

  // ---------------------------------------------------------------------------
  // Hunk headers
  // ---------------------------------------------------------------------------

  lemma DigitsAreNotPunctuation(s: string)
    requires IsDigits(s)
    ensures '@' !in s && ' ' !in s && ',' !in s && '-' !in s
  {
    assert forall i :: 0 <= i < |s| ==> IsDigit(s[i]);
  }

  lemma TrimPadded(t: string)
    requires t != [] && !IsSpace(t[0]) && !IsSpace(t[|t| - 1])
    ensures Trim(" " + t + " ") == t
  {
    var x := " " + t + " ";
    var y := t + " ";
    assert x[0] == ' ' && x[1..] == y;
    assert y[0] == t[0];
    assert TrimStart(y) == y;
    assert TrimStart(x) == y;
    assert y[|y| - 1] == ' ' && y[..|y| - 1] == t;
    assert TrimEnd(t) == t;
    assert TrimEnd(y) == t;
  }

  lemma MarkedSegment(x: string, tail: string)
    requires '@' !in x
    ensures AfterMarker("@@" + x + "@@" + tail) == Some(x + "@@" + tail)
    ensures UpToMarker(x + "@@" + tail) == x
  {
    var header := "@@" + x + "@@" + tail;
    assert header[..2] == "@@" && header[2..] == x + "@@" + tail;
    UpToMarkerConcat(x, tail);
  }

  lemma StartTokenSteps(header: string, x: string, tail: string, minus: string, digits: string)
    requires header == "@@" + x + "@@" + tail && '@' !in x
    requires ' ' in Trim(x) && TakeUntil(Trim(x), ' ') == minus
    requires TakeUntil(minus, ',') == "-" + digits && '-' !in digits
    ensures StartToken(header) == Some(digits)
  {
    MarkedSegment(x, tail);
    var signed := "-" + digits;
    assert signed[0] == '-' && signed[1..] == digits;
    RemoveAllAbsent(digits, '-');
  }

  /** The text between the markers of a canonical header, split into its
      tokens. */
  lemma CanonicalInner(s: string, count: string, plus: string)
    requires IsDigits(s)
    requires count == [] || count[0] == ','
    requires ' ' !in count && '@' !in count
    requires plus != [] && '@' !in plus && !IsSpace(plus[|plus| - 1])
    ensures var inner := "-" + s + count + (" " + plus);
      && '@' !in " " + inner + " "
      && Trim(" " + inner + " ") == inner
      && ' ' in inner
      && TakeUntil(inner, ' ') == "-" + s + count
      && TakeUntil("-" + s + count, ',') == "-" + s
      && '-' !in s
  {
    DigitsAreNotPunctuation(s);
    var signed := "-" + s;
    var minus := signed + count;
    var inner := minus + (" " + plus);
    assert '@' !in " " + inner + " " by {
      assert '@' !in signed && '@' !in minus;
    }
    assert Trim(" " + inner + " ") == inner by {
      assert inner[0] == '-' && inner[|inner| - 1] == plus[|plus| - 1];
      TrimPadded(inner);
    }
    assert inner[|minus|] == ' ';
    assert TakeUntil(inner, ' ') == minus by {
      assert ' ' !in signed && ' ' !in minus;
      TakeUntilConcat(minus, " " + plus, ' ');
    }
    assert ',' !in signed;
    TakeUntilConcat(signed, count, ',');
  }

  lemma HeaderShape(s: string, count: string, plus: string, tail: string)
    ensures "@@ -" + s + count + " " + plus + " @@" + tail
         == "@@" + (" " + ("-" + s + count + (" " + plus)) + " ") + "@@" + tail
  {
    var a: string, b: string := "@@ -", " @@";
    assert a == "@@" + " " + "-" && b == " " + "@@";
    var inner := "-" + s + count + (" " + plus);
    calc {
      a + s + count + " " + plus + b + tail;
      "@@" + " " + "-" + s + count + " " + plus + (" " + "@@") + tail;
      "@@" + (" " + inner + " ") + "@@" + tail;
    }
  }

  /** A header `@@ -s[,c] +t[,d] @@...` yields max(s - 1, 0). `count` is the
      optional ",c" and `plus` the new-file token "+t[,d]". */
  lemma CanonicalHeaderStart(s: string, count: string, plus: string, tail: string)
    requires IsDigits(s)
    requires count == [] || count[0] == ','
    requires ' ' !in count && '@' !in count
    requires plus != [] && '@' !in plus && !IsSpace(plus[|plus| - 1])
    ensures ParseHunkHeader("@@ -" + s + count + " " + plus + " @@" + tail)
         == Ok(if DecimalValue(s) > 1 then DecimalValue(s) - 1 else 0)
  {
    var header := "@@ -" + s + count + " " + plus + " @@" + tail;
    var inner := "-" + s + count + (" " + plus);
    var x := " " + inner + " ";
    CanonicalInner(s, count, plus);
    HeaderShape(s, count, plus, tail);
    StartTokenSteps(header, x, tail, "-" + s + count, s);
  }

  // ---------------------------------------------------------------------------
  // Parsing
  // ---------------------------------------------------------------------------

  /** The body lines of a diff, in diff order. */
  function Bodies(lines: seq<string>): seq<string> {
    if lines == [] then []
    else (if IsBodyLine(lines[0]) then [lines[0]] else []) + Bodies(lines[1..])
  }

  /** The body lines are lines of the diff that are neither file headers nor
      "@@" headers. */
  lemma {:induction false} BodiesAreBodyLines(lines: seq<string>)
    ensures forall i :: 0 <= i < |Bodies(lines)| ==> IsBodyLine(Bodies(lines)[i]) && Bodies(lines)[i] in lines
    decreases |lines|
  {
    if lines != [] {
      BodiesAreBodyLines(lines[1..]);
      var head := if IsBodyLine(lines[0]) then [lines[0]] else [];
      var b := Bodies(lines);
      assert b == head + Bodies(lines[1..]);
      forall i | 0 <= i < |b| ensures IsBodyLine(b[i]) && b[i] in lines {
        if i >= |head| {
          assert b[i] == Bodies(lines[1..])[i - |head|];
        }
      }
    }
  }

  /** All hunk lines, hunk after hunk. */
  function Flatten(hunks: seq<Hunk>): seq<string> {
    if hunks == [] then [] else hunks[0].lines + Flatten(hunks[1..])
  }

  /** Every "@@" line is a header the parser accepts. */
  predicate HeadersValid(lines: seq<string>)
    decreases |lines|
  {
    lines == [] || ((IsHunkHeader(lines[0]) ==> ParseHunkHeader(lines[0]).Ok?) && HeadersValid(lines[1..]))
  }

  predicate NonEmptyBodies(hunks: seq<Hunk>) {
    forall i :: 0 <= i < |hunks| ==> hunks[i].lines != []
  }

  lemma {:induction false} FlattenAppend(hunks: seq<Hunk>, h: Hunk)
    ensures Flatten(hunks + [h]) == Flatten(hunks) + h.lines
    decreases |hunks|
  {
    if hunks != [] {
      assert (hunks + [h])[1..] == hunks[1..] + [h];
      FlattenAppend(hunks[1..], h);
    }
  }

  lemma {:induction false} FlattenMember(hunks: seq<Hunk>, i: nat, j: nat)
    requires i < |hunks| && j < |hunks[i].lines|
    ensures hunks[i].lines[j] in Flatten(hunks)
    decreases i
  {
    if i > 0 {
      FlattenMember(hunks[1..], i - 1, j);
    }
  }

  lemma FlushFlatten(hunks: seq<Hunk>, current: seq<string>, start: nat)
    requires NonEmptyBodies(hunks)
    ensures Flatten(Flush(hunks, current, start)) == Flatten(hunks) + current
    ensures NonEmptyBodies(Flush(hunks, current, start))
    ensures Flush(hunks, current, start) == [] <==> Flatten(hunks) + current == []
    ensures |Flush(hunks, current, start)| >= |hunks|
    ensures Flush(hunks, current, start)[..|hunks|] == hunks
  {
    if current != [] {
      FlattenAppend(hunks, Hunk(start, current));
    }
    if hunks != [] {
      assert Flatten(hunks) == hunks[0].lines + Flatten(hunks[1..]);
    }
  }

  /** HeadersValid read as a statement about every line. */
  lemma {:induction false} HeadersValidEvery(lines: seq<string>)
    ensures HeadersValid(lines) <==>
      forall i :: 0 <= i < |lines| && IsHunkHeader(lines[i]) ==> ParseHunkHeader(lines[i]).Ok?
    decreases |lines|
  {
    if lines != [] {
      var rest := lines[1..];
      HeadersValidEvery(rest);
      assert forall i :: 0 < i < |lines| ==> lines[i] == rest[i - 1];
      assert forall i :: 0 <= i < |rest| ==> rest[i] == lines[i + 1];
    }
  }

  /** The parse loop, from any state whose closed hunks are non-empty,
      succeeds exactly when every header is readable and some body line
      exists, and reports "No hunks found in diff" when only the latter fails. */
  lemma {:induction false} ParseFromSucceeds(lines: seq<string>, hunks: seq<Hunk>, current: seq<string>, start: nat)
    requires NonEmptyBodies(hunks)
    ensures var r := ParseFrom(lines, hunks, current, start);
      && (r.Ok? <==> HeadersValid(lines) && Flatten(hunks) + current + Bodies(lines) != [])
      && (HeadersValid(lines) && Flatten(hunks) + current + Bodies(lines) == [] ==>
            r == Err(NoHunksIssue))
    decreases |lines|
  {
    if lines == [] {
      FlushFlatten(hunks, current, start);
    } else {
      var line, rest := lines[0], lines[1..];
      if IsHunkHeader(line) {
        match ParseHunkHeader(line)
        case Err(e) =>
        case Ok(s) =>
          FlushFlatten(hunks, current, start);
          ParseFromSucceeds(rest, Flush(hunks, current, start), [], s);
          assert Bodies(lines) == Bodies(rest);
      } else if IsFileHeader(line) {
        ParseFromSucceeds(rest, hunks, current, start);
        assert Bodies(lines) == Bodies(rest);
      } else {
        ParseFromSucceeds(rest, hunks, current + [line], start);
        assert Bodies(lines) == [line] + Bodies(rest);
        assert (current + [line]) + Bodies(rest) == current + ([line] + Bodies(rest));
      }
    }
  }

  lemma BodiesCons(lines: seq<string>)
    requires lines != []
    ensures Bodies(lines) == (if IsBodyLine(lines[0]) then [lines[0]] + Bodies(lines[1..]) else Bodies(lines[1..]))
  {
    if !IsBodyLine(lines[0]) {
      assert [] + Bodies(lines[1..]) == Bodies(lines[1..]);
    }
  }

  lemma ConcatAssoc(a: seq<string>, b: seq<string>, line: string, c: seq<string>)
    ensures a + (b + [line]) + c == a + b + ([line] + c)
    ensures a + b + [] + c == a + b + c
  {
  }

  /** A successful parse adds the remaining body lines, in order. */
  lemma {:induction false} ParseFromFlatten(lines: seq<string>, hunks: seq<Hunk>, current: seq<string>, start: nat)
    requires NonEmptyBodies(hunks)
    requires ParseFrom(lines, hunks, current, start).Ok?
    ensures Flatten(ParseFrom(lines, hunks, current, start).value) == Flatten(hunks) + current + Bodies(lines)
    decreases |lines|
  {
    if lines == [] {
      FlushFlatten(hunks, current, start);
      ConcatAssoc(Flatten(hunks), current, "", []);
    } else {
      var line, rest := lines[0], lines[1..];
      BodiesCons(lines);
      if IsHunkHeader(line) {
        FlushFlatten(hunks, current, start);
        ParseFromFlatten(rest, Flush(hunks, current, start), [], ParseHunkHeader(line).value);
        ConcatAssoc(Flatten(hunks), current, line, Bodies(rest));
      } else if IsFileHeader(line) {
        ParseFromFlatten(rest, hunks, current, start);
      } else {
        ParseFromFlatten(rest, hunks, current + [line], start);
        ConcatAssoc(Flatten(hunks), current, line, Bodies(rest));
      }
    }
  }

  /** A successful parse keeps the hunks already closed and adds only
      non-empty ones. */
  lemma {:induction false} ParseFromKeeps(lines: seq<string>, hunks: seq<Hunk>, current: seq<string>, start: nat)
    requires NonEmptyBodies(hunks)
    requires ParseFrom(lines, hunks, current, start).Ok?
    ensures var hs := ParseFrom(lines, hunks, current, start).value;
      NonEmptyBodies(hs) && |hs| >= |hunks| && hs[..|hunks|] == hunks
    decreases |lines|
  {
    var r := ParseFrom(lines, hunks, current, start);
    if lines == [] {
      FlushFlatten(hunks, current, start);
    } else {
      var line, rest := lines[0], lines[1..];
      if IsHunkHeader(line) {
        FlushFlatten(hunks, current, start);
        var hs := Flush(hunks, current, start);
        ParseFromKeeps(rest, hs, [], ParseHunkHeader(line).value);
        assert r.value[..|hs|][..|hunks|] == r.value[..|hunks|];
      } else if IsFileHeader(line) {
        ParseFromKeeps(rest, hunks, current, start);
      } else {
        ParseFromKeeps(rest, hunks, current + [line], start);
      }
    }
  }

  /** The first unreadable "@@" header stops the parse with its own text. */
  lemma {:induction false} ParseFromFirstBadHeader(lines: seq<string>, hunks: seq<Hunk>, current: seq<string>, start: nat, k: nat)
    requires k < |lines| && IsHunkHeader(lines[k]) && ParseHunkHeader(lines[k]).Err?
    requires HeadersValid(lines[..k])
    ensures ParseFrom(lines, hunks, current, start) == Err(InvalidHeader(lines[k]))
    decreases k
  {
    if k > 0 {
      var rest := lines[1..];
      assert lines[..k][0] == lines[0] && lines[..k][1..] == rest[..k - 1];
      assert rest[k - 1] == lines[k];
      var line := lines[0];
      if IsHunkHeader(line) {
        ParseFromFirstBadHeader(rest, Flush(hunks, current, start), [], ParseHunkHeader(line).value, k - 1);
      } else if IsFileHeader(line) {
        ParseFromFirstBadHeader(rest, hunks, current, start, k - 1);
      } else {
        ParseFromFirstBadHeader(rest, hunks, current + [line], start, k - 1);
      }
    }
  }

  /** The outcome of parsing a diff's lines: success exactly when every "@@"
      header is readable and some body line exists; the hunks then hold all
      body lines, in diff order, and none is empty. A header that cannot be
      read fails with its own text, before anything else; no body lines fails
      with "No hunks found in diff". */
  lemma ParseLinesOutcome(lines: seq<string>)
    ensures var r := ParseLines(lines);
      && (r.Ok? <==> HeadersValid(lines) && Bodies(lines) != [])
      && (r.Ok? ==> Flatten(r.value) == Bodies(lines) && NonEmptyBodies(r.value))
      && (HeadersValid(lines) && Bodies(lines) == [] ==> r == Err(NoHunksIssue))
      && (forall k :: (0 <= k < |lines| && IsHunkHeader(lines[k]) && ParseHunkHeader(lines[k]).Err? &&
            HeadersValid(lines[..k])) ==> r == Err(InvalidHeader(lines[k])))
  {
    ParseFromSucceeds(lines, [], [], 0);
    if ParseLines(lines).Ok? {
      ParseFromFlatten(lines, [], [], 0);
      ParseFromKeeps(lines, [], [], 0);
    }
    forall k | (0 <= k < |lines| && IsHunkHeader(lines[k]) && ParseHunkHeader(lines[k]).Err? &&
        HeadersValid(lines[..k]))
      ensures ParseLines(lines) == Err(InvalidHeader(lines[k]))
    {
      ParseFromFirstBadHeader(lines, [], [], 0, k);
    }
  }

  /** No parsed hunk holds a "---", "+++", "diff --git" or "@@" line, and every
      hunk line is a line of the diff. */
  lemma ParsedLinesAreBodyLines(lines: seq<string>)
    requires ParseLines(lines).Ok?
    ensures var hunks := ParseLines(lines).value;
      forall i, j :: 0 <= i < |hunks| && 0 <= j < |hunks[i].lines| ==>
        IsBodyLine(hunks[i].lines[j]) && hunks[i].lines[j] in lines
  {
    ParseLinesOutcome(lines);
    BodiesAreBodyLines(lines);
    var hunks := ParseLines(lines).value;
    forall i, j | 0 <= i < |hunks| && 0 <= j < |hunks[i].lines|
      ensures IsBodyLine(hunks[i].lines[j]) && hunks[i].lines[j] in lines
    {
      FlattenMember(hunks, i, j);
    }
  }

  lemma {:induction false} FirstAnchor(lines: seq<string>, current: seq<string>, start: nat, k: nat)
    requires ParseFrom(lines, [], current, start).Ok?
    requires current != [] ||
      (k < |lines| && IsBodyLine(lines[k]) && forall j :: 0 <= j < k ==> !IsHunkHeader(lines[j]))
    ensures ParseFrom(lines, [], current, start).value[0].origStart == start
    decreases |lines|
  {
    var r := ParseFrom(lines, [], current, start);
    if lines != [] {
      var line, rest := lines[0], lines[1..];
      if IsHunkHeader(line) {
        assert current != [];
        match ParseHunkHeader(line)
        case Ok(s) =>
          var hs := Flush([], current, start);
          assert NonEmptyBodies(hs);
          ParseFromKeeps(rest, hs, [], s);
          assert r.value[..1] == hs;
      } else if IsFileHeader(line) {
        if current == [] {
          assert k > 0;
          assert forall j :: 0 <= j < k - 1 ==> !IsHunkHeader(rest[j]) by {
            forall j | 0 <= j < k - 1 ensures !IsHunkHeader(rest[j]) {
              assert rest[j] == lines[j + 1];
            }
          }
          FirstAnchor(rest, current, start, k - 1);
        } else {
          FirstAnchor(rest, current, start, 0);
        }
      } else {
        FirstAnchor(rest, current + [line], start, 0);
      }
    }
  }

  /** Body lines that come before any "@@" form a hunk anchored at line 0. */
  lemma PreludeHunkAnchoredAtZero(lines: seq<string>, k: nat)
    requires ParseLines(lines).Ok?
    requires k < |lines| && IsBodyLine(lines[k])
    requires forall j :: 0 <= j < k ==> !IsHunkHeader(lines[j])
    ensures ParseLines(lines).value[0].origStart == 0
  {
    FirstAnchor(lines, [], 0, k);
  }

  lemma {:induction false} SkipFileHeaders(pre: seq<string>, rest: seq<string>, hunks: seq<Hunk>, current: seq<string>, start: nat)
    requires forall i :: 0 <= i < |pre| ==> IsFileHeader(pre[i]) && !IsHunkHeader(pre[i])
    ensures ParseFrom(pre + rest, hunks, current, start) == ParseFrom(rest, hunks, current, start)
    decreases |pre|
  {
    if pre != [] {
      assert (pre + rest)[0] == pre[0];
      assert (pre + rest)[1..] == pre[1..] + rest;
      SkipFileHeaders(pre[1..], rest, hunks, current, start);
    } else {
      assert pre + rest == rest;
    }
  }

  lemma {:induction false} HeaderlessRun(body: seq<string>, current: seq<string>, start: nat)
    requires forall i :: 0 <= i < |body| ==> !IsHunkHeader(body[i])
    requires current + Bodies(body) != []
    ensures ParseFrom(body, [], current, start) == Ok([Hunk(start, current + Bodies(body))])
    decreases |body|
  {
    if body != [] {
      var line := body[0];
      if IsFileHeader(line) {
        assert Bodies(body) == Bodies(body[1..]);
        HeaderlessRun(body[1..], current, start);
      } else {
        assert (current + [line]) + Bodies(body[1..]) == current + Bodies(body);
        HeaderlessRun(body[1..], current + [line], start);
      }
    } else {
      assert current + Bodies(body) == current;
      assert Flush([], current, start) == [Hunk(start, current)];
    }
  }

  lemma HeaderlessBody(body: seq<string>, start: nat)
    requires forall i :: 0 <= i < |body| ==> !IsHunkHeader(body[i])
    requires Bodies(body) != []
    ensures ParseFrom(body, [], [], start) == Ok([Hunk(start, Bodies(body))])
  {
    HeaderlessRun(body, [], start);
    assert [] + Bodies(body) == Bodies(body);
  }

  lemma HeaderStep(header: string, body: seq<string>, hunks: seq<Hunk>, current: seq<string>, start: nat)
    requires IsHunkHeader(header) && ParseHunkHeader(header).Ok?
    ensures ParseFrom([header] + body, hunks, current, start)
         == ParseFrom(body, Flush(hunks, current, start), [], ParseHunkHeader(header).value)
  {
    assert ([header] + body)[0] == header && ([header] + body)[1..] == body;
  }

  /** File headers, one readable "@@" header and a body without "@@" lines
      parse to a single hunk at the header's start holding the body lines. */
  lemma SingleHunkParse(pre: seq<string>, header: string, body: seq<string>)
    requires forall i :: 0 <= i < |pre| ==> IsFileHeader(pre[i]) && !IsHunkHeader(pre[i])
    requires IsHunkHeader(header) && ParseHunkHeader(header).Ok?
    requires forall i :: 0 <= i < |body| ==> !IsHunkHeader(body[i])
    requires Bodies(body) != []
    ensures ParseLines(pre + ([header] + body))
         == Ok([Hunk(ParseHunkHeader(header).value, Bodies(body))])
  {
    SkipFileHeaders(pre, [header] + body, [], [], 0);
    HeaderedRun(header, body);
  }

  lemma HeaderedRun(header: string, body: seq<string>)
    requires IsHunkHeader(header) && ParseHunkHeader(header).Ok?
    requires forall i :: 0 <= i < |body| ==> !IsHunkHeader(body[i])
    requires Bodies(body) != []
    ensures ParseFrom([header] + body, [], [], 0)
         == Ok([Hunk(ParseHunkHeader(header).value, Bodies(body))])
  {
    HeaderStep(header, body, [], [], 0);
    HeaderlessBody(body, ParseHunkHeader(header).value);
  }

  // ---------------------------------------------------------------------------
  // Parsing, hunk by hunk
  // ---------------------------------------------------------------------------

  /** A "@@" line and the lines after it, up to the next "@@" line. */
  datatype Segment = Segment(header: string, body: seq<string>)

  predicate NoHunkHeader(lines: seq<string>) {
    forall i :: 0 <= i < |lines| ==> !IsHunkHeader(lines[i])
  }

  /** Every segment opens with a readable "@@" header and runs to the next one. */
  predicate WellSegmented(segs: seq<Segment>) {
    forall i :: 0 <= i < |segs| ==>
      IsHunkHeader(segs[i].header) && ParseHunkHeader(segs[i].header).Ok? && NoHunkHeader(segs[i].body)
  }

  /** The diff lines a run of segments stands for. */
  function SegmentLines(segs: seq<Segment>): seq<string> {
    if segs == [] then [] else [segs[0].header] + segs[0].body + SegmentLines(segs[1..])
  }

  /** The hunk each segment yields: anchored at its own header's start and
      holding its body lines; a segment without body lines yields none. */
  function SegmentHunks(segs: seq<Segment>): seq<Hunk>
    requires WellSegmented(segs)
  {
    if segs == [] then []
    else
      var s := segs[0];
      (if Bodies(s.body) != [] then [Hunk(ParseHunkHeader(s.header).value, Bodies(s.body))] else [])
      + SegmentHunks(segs[1..])
  }

  /** The end of the parse loop: the closed hunks, or the no-hunks issue. */
  function Finish(all: seq<Hunk>): Result<seq<Hunk>, PatchFailure> {
    if all == [] then Err(NoHunksIssue) else Ok(all)
  }

  /** Lines without "@@" only extend the open body, by their body lines. */
  lemma {:induction false} BodyRun(body: seq<string>, rest: seq<string>, hunks: seq<Hunk>, current: seq<string>, start: nat)
    requires NoHunkHeader(body)
    ensures ParseFrom(body + rest, hunks, current, start) == ParseFrom(rest, hunks, current + Bodies(body), start)
    decreases |body|
  {
    if body == [] {
      assert body + rest == rest && current + Bodies(body) == current;
    } else {
      var line, tail := body[0], body[1..];
      assert (body + rest)[0] == line && (body + rest)[1..] == tail + rest;
      assert NoHunkHeader(tail) by {
        forall i | 0 <= i < |tail| ensures !IsHunkHeader(tail[i]) {
          assert tail[i] == body[i + 1];
        }
      }
      if IsFileHeader(line) {
        BodyRun(tail, rest, hunks, current, start);
        assert Bodies(body) == Bodies(tail);
      } else {
        BodyRun(tail, rest, hunks, current + [line], start);
        assert Bodies(body) == [line] + Bodies(tail);
        assert current + [line] + Bodies(tail) == current + Bodies(body);
      }
    }
  }

  /** A readable header closes the open body and opens a new one, anchored at
      the header's start, which collects the body lines up to the next "@@". */
  lemma SegmentStep(header: string, body: seq<string>, rest: seq<string>, hunks: seq<Hunk>, current: seq<string>, start: nat)
    requires IsHunkHeader(header) && ParseHunkHeader(header).Ok? && NoHunkHeader(body)
    ensures ParseFrom([header] + body + rest, hunks, current, start)
         == ParseFrom(rest, Flush(hunks, current, start), Bodies(body), ParseHunkHeader(header).value)
  {
    assert [header] + body + rest == [header] + (body + rest);
    HeaderStep(header, body + rest, hunks, current, start);
    BodyRun(body, rest, Flush(hunks, current, start), [], ParseHunkHeader(header).value);
    assert [] + Bodies(body) == Bodies(body);
  }

  /** Closing a body and appending more hunks, as one concatenation. */
  lemma FlushThen(closed: seq<Hunk>, body: seq<string>, start: nat, tail: seq<Hunk>)
    ensures Flush(closed, body, start) + tail
         == closed + ((if body != [] then [Hunk(start, body)] else []) + tail)
  {
    var x := if body != [] then [Hunk(start, body)] else [];
    assert Flush(closed, body, start) == closed + x;
    assert (closed + x) + tail == closed + (x + tail);
  }

  /** The parse loop over header-delimited segments closes the open body, then
      one hunk per segment with body lines, in segment order. */
  lemma {:induction false} SegmentsParse(segs: seq<Segment>, hunks: seq<Hunk>, current: seq<string>, start: nat)
    requires WellSegmented(segs)
    ensures ParseFrom(SegmentLines(segs), hunks, current, start)
         == Finish(Flush(hunks, current, start) + SegmentHunks(segs))
    decreases |segs|
  {
    var closed := Flush(hunks, current, start);
    if segs == [] {
      assert closed + [] == closed;
    } else {
      var s, more := segs[0], segs[1..];
      assert WellSegmented(more) by {
        forall i | 0 <= i < |more| ensures more[i] == segs[i + 1] { }
      }
      var v := ParseHunkHeader(s.header).value;
      calc {
        ParseFrom(SegmentLines(segs), hunks, current, start);
        { assert SegmentLines(segs) == [s.header] + s.body + SegmentLines(more);
          SegmentStep(s.header, s.body, SegmentLines(more), hunks, current, start); }
        ParseFrom(SegmentLines(more), closed, Bodies(s.body), v);
        { SegmentsParse(more, closed, Bodies(s.body), v); }
        Finish(Flush(closed, Bodies(s.body), v) + SegmentHunks(more));
        { FlushThen(closed, Bodies(s.body), v, SegmentHunks(more));
          assert segs == [s] + more;
          SegmentCons(s, more); }
        Finish(closed + SegmentHunks(segs));
      }
    }
  }

  /** A diff made of body lines before the first "@@" and then of
      header-delimited segments parses to the leading hunk at line 0, when it
      has body lines, followed by one hunk per segment with body lines: each
      anchored at the start of the header that opened it and holding exactly
      the body lines up to the next "@@". */
  lemma ParseLinesSegments(prelude: seq<string>, segs: seq<Segment>)
    requires NoHunkHeader(prelude) && WellSegmented(segs)
    ensures ParseLines(prelude + SegmentLines(segs))
         == Finish((if Bodies(prelude) != [] then [Hunk(0, Bodies(prelude))] else []) + SegmentHunks(segs))
  {
    var lead := if Bodies(prelude) != [] then [Hunk(0, Bodies(prelude))] else [];
    calc {
      ParseLines(prelude + SegmentLines(segs));
      { BodyRun(prelude, SegmentLines(segs), [], [], 0); }
      ParseFrom(SegmentLines(segs), [], [] + Bodies(prelude), 0);
      { assert [] + Bodies(prelude) == Bodies(prelude); }
      ParseFrom(SegmentLines(segs), [], Bodies(prelude), 0);
      { SegmentsParse(segs, [], Bodies(prelude), 0); }
      Finish(Flush([], Bodies(prelude), 0) + SegmentHunks(segs));
      { assert Flush([], Bodies(prelude), 0) == lead; }
      Finish(lead + SegmentHunks(segs));
    }
  }

  /** From position `p` on, `hunks` holds one hunk per segment, in order: the
      i-th anchored at the start of the i-th header and holding exactly that
      segment's body lines. */
  predicate HunkPerSegment(hunks: seq<Hunk>, p: nat, segs: seq<Segment>)
    requires WellSegmented(segs)
  {
    && |hunks| == p + |segs|
    && forall i :: 0 <= i < |segs| ==>
         hunks[p + i] == Hunk(ParseHunkHeader(segs[i].header).value, Bodies(segs[i].body))
  }

  lemma HunkPerSegmentCons(hs: seq<Hunk>, s: Segment, more: seq<Segment>)
    requires ParseHunkHeader(s.header).Ok? && WellSegmented([s] + more) && WellSegmented(more)
    requires HunkPerSegment(hs, 0, more)
    ensures HunkPerSegment([Hunk(ParseHunkHeader(s.header).value, Bodies(s.body))] + hs, 0, [s] + more)
  {
    var h := Hunk(ParseHunkHeader(s.header).value, Bodies(s.body));
    forall i | 0 < i < |[s] + more|
      ensures ([h] + hs)[i] == hs[i - 1] && ([s] + more)[i] == more[i - 1]
    {
    }
  }

  /** When every segment has body lines, segment i yields hunk i. */
  lemma {:induction false} SegmentHunksEvery(segs: seq<Segment>)
    requires WellSegmented(segs)
    requires forall i :: 0 <= i < |segs| ==> Bodies(segs[i].body) != []
    ensures HunkPerSegment(SegmentHunks(segs), 0, segs)
    decreases |segs|
  {
    if segs != [] {
      var s, more := segs[0], segs[1..];
      assert segs == [s] + more;
      assert forall i :: 0 <= i < |more| ==> more[i] == segs[i + 1];
      SegmentHunksEvery(more);
      SegmentCons(s, more);
      HunkPerSegmentCons(SegmentHunks(more), s, more);
    }
  }

  lemma LeadThenSegments(lead: seq<Hunk>, segs: seq<Segment>)
    requires WellSegmented(segs)
    requires forall i :: 0 <= i < |segs| ==> Bodies(segs[i].body) != []
    ensures HunkPerSegment(lead + SegmentHunks(segs), |lead|, segs)
  {
    var hs := SegmentHunks(segs);
    SegmentHunksEvery(segs);
    forall i | 0 <= i < |segs|
      ensures (lead + hs)[|lead| + i] == Hunk(ParseHunkHeader(segs[i].header).value, Bodies(segs[i].body))
    {
      assert (lead + hs)[|lead| + i] == hs[0 + i];
    }
  }

  /** A diff of several hunks, each with body lines: the parse yields one hunk
      per "@@" header, in order, after the leading hunk if there is one. */
  lemma ParseLinesHunkPerHeader(prelude: seq<string>, segs: seq<Segment>)
    requires NoHunkHeader(prelude) && WellSegmented(segs)
    requires forall i :: 0 <= i < |segs| ==> Bodies(segs[i].body) != []
    ensures var r := ParseLines(prelude + SegmentLines(segs));
      var p := if Bodies(prelude) != [] then 1 else 0;
      && (p + |segs| == 0 ==> r == Err(NoHunksIssue))
      && (p + |segs| > 0 ==>
            && r.Ok? && HunkPerSegment(r.value, p, segs)
            && (p == 1 ==> r.value[0] == Hunk(0, Bodies(prelude))))
  {
    var lead := if Bodies(prelude) != [] then [Hunk(0, Bodies(prelude))] else [];
    var r := ParseLines(prelude + SegmentLines(segs));
    assert r == Finish(lead + SegmentHunks(segs)) by {
      ParseLinesSegments(prelude, segs);
    }
    LeadThenSegments(lead, segs);
  }

  /** The lines before the first "@@" line. */
  function UpToHeader(lines: seq<string>): (r: seq<string>)
    ensures |r| <= |lines| && r == lines[..|r|] && NoHunkHeader(r)
    ensures |r| < |lines| ==> IsHunkHeader(lines[|r|])
    decreases |lines|
  {
    if lines == [] || IsHunkHeader(lines[0]) then [] else [lines[0]] + UpToHeader(lines[1..])
  }

  /** The segments of lines that start at a "@@" line: each header with the
      lines up to the next one. */
  function SegmentsOf(lines: seq<string>): seq<Segment>
    requires lines == [] || IsHunkHeader(lines[0])
    decreases |lines|
  {
    if lines == [] then []
    else
      var body := UpToHeader(lines[1..]);
      [Segment(lines[0], body)] + SegmentsOf(lines[1 + |body|..])
  }

  predicate HeadersReadable(lines: seq<string>) {
    forall i :: 0 <= i < |lines| && IsHunkHeader(lines[i]) ==> ParseHunkHeader(lines[i]).Ok?
  }

  lemma SegmentCons(s: Segment, more: seq<Segment>)
    requires IsHunkHeader(s.header) && ParseHunkHeader(s.header).Ok? && NoHunkHeader(s.body)
    requires WellSegmented(more)
    ensures WellSegmented([s] + more)
    ensures SegmentLines([s] + more) == [s.header] + s.body + SegmentLines(more)
    ensures SegmentHunks([s] + more)
         == (if Bodies(s.body) != [] then [Hunk(ParseHunkHeader(s.header).value, Bodies(s.body))] else [])
            + SegmentHunks(more)
  {
    assert ([s] + more)[1..] == more;
    forall i | 0 < i < |[s] + more| ensures ([s] + more)[i] == more[i - 1] { }
  }

  /** The lines after the first body, which again start at a "@@" line. */
  lemma ReadableSuffix(lines: seq<string>, k: nat)
    requires HeadersReadable(lines) && k <= |lines|
    ensures HeadersReadable(lines[k..])
  {
    forall i | 0 <= i < |lines[k..]| ensures lines[k..][i] == lines[k + i] { }
  }

  /** The first line, the body after it and the lines from the next "@@" on. */
  lemma FirstSegment(lines: seq<string>)
    requires lines != []
    ensures var body := UpToHeader(lines[1..]);
      var rest := lines[1 + |body|..];
      && (rest == [] || IsHunkHeader(rest[0]))
      && lines == [lines[0]] + body + rest
  {
    var body := UpToHeader(lines[1..]);
    assert lines[1..] == body + lines[1..][|body|..];
    assert lines[1..][|body|..] == lines[1 + |body|..];
  }

  /** Lines that start at a readable "@@" line split into their segments. */
  lemma {:induction false} SegmentsOfSplit(lines: seq<string>)
    requires lines == [] || IsHunkHeader(lines[0])
    requires HeadersReadable(lines)
    ensures WellSegmented(SegmentsOf(lines)) && SegmentLines(SegmentsOf(lines)) == lines
    decreases |lines|
  {
    if lines != [] {
      var body := UpToHeader(lines[1..]);
      var rest := lines[1 + |body|..];
      FirstSegment(lines);
      ReadableSuffix(lines, 1 + |body|);
      SegmentsOfSplit(rest);
      SegmentCons(Segment(lines[0], body), SegmentsOf(rest));
    }
  }

  /** Every diff whose "@@" headers are readable parses, hunk by hunk, as the
      segment reading says: a leading hunk at line 0 for the body lines before
      the first "@@", then one hunk per "@@" header that has body lines before
      the next one, anchored at that header's start. */
  lemma ParseLinesBySegments(lines: seq<string>)
    requires HeadersValid(lines)
    ensures var prelude := UpToHeader(lines);
      var rest := lines[|prelude|..];
      && WellSegmented(SegmentsOf(rest))
      && ParseLines(lines)
         == Finish((if Bodies(prelude) != [] then [Hunk(0, Bodies(prelude))] else []) + SegmentHunks(SegmentsOf(rest)))
  {
    var prelude := UpToHeader(lines);
    var rest := lines[|prelude|..];
    HeadersValidEvery(lines);
    ReadableSuffix(lines, |prelude|);
    SegmentsOfSplit(rest);
    assert lines == prelude + rest;
    ParseLinesSegments(prelude, SegmentsOf(rest));
  }

  lemma TwoSegments(h1: string, b1: seq<string>, h2: string, b2: seq<string>)
    requires IsHunkHeader(h1) && ParseHunkHeader(h1).Ok? && NoHunkHeader(b1) && Bodies(b1) != []
    requires IsHunkHeader(h2) && ParseHunkHeader(h2).Ok? && NoHunkHeader(b2) && Bodies(b2) != []
    ensures var segs := [Segment(h1, b1), Segment(h2, b2)];
      && WellSegmented(segs)
      && SegmentLines(segs) == [h1] + b1 + [h2] + b2
      && SegmentHunks(segs)
         == [Hunk(ParseHunkHeader(h1).value, Bodies(b1)), Hunk(ParseHunkHeader(h2).value, Bodies(b2))]
  {
    var s1, s2 := Segment(h1, b1), Segment(h2, b2);
    var none: seq<Segment> := [];
    assert [s2] == [s2] + none && [s1, s2] == [s1] + [s2];
    SegmentCons(s2, none);
    SegmentCons(s1, [s2]);
  }

  /** Two headers, each followed by body lines, give two hunks at their own
      anchors. */
  lemma TwoHunkParse(h1: string, b1: seq<string>, h2: string, b2: seq<string>)
    requires IsHunkHeader(h1) && ParseHunkHeader(h1).Ok? && NoHunkHeader(b1) && Bodies(b1) != []
    requires IsHunkHeader(h2) && ParseHunkHeader(h2).Ok? && NoHunkHeader(b2) && Bodies(b2) != []
    ensures ParseLines([h1] + b1 + [h2] + b2)
         == Ok([Hunk(ParseHunkHeader(h1).value, Bodies(b1)), Hunk(ParseHunkHeader(h2).value, Bodies(b2))])
  {
    var segs := [Segment(h1, b1), Segment(h2, b2)];
    TwoSegments(h1, b1, h2, b2);
    var none: seq<string> := [];
    assert NoHunkHeader(none) && Bodies(none) == [];
    calc {
      ParseLines([h1] + b1 + [h2] + b2);
      { assert none + SegmentLines(segs) == SegmentLines(segs); }
      ParseLines(none + SegmentLines(segs));
      { ParseLinesSegments(none, segs); }
      Finish([] + SegmentHunks(segs));
      { assert [] + SegmentHunks(segs) == SegmentHunks(segs); }
      Finish(SegmentHunks(segs));
    }
  }

  // ---------------------------------------------------------------------------
  // Applying: the old side and the new side of a hunk
  // ---------------------------------------------------------------------------

  /** How many original lines a body line accounts for. */
  function Consumed(line: string): nat {
    if IsContext(line) || IsDeletion(line) then 1 else 0
  }

  /** The texts of the context and deletion lines: what the hunk expects to
      find in the original. */
  function OldSide(lines: seq<string>): seq<string> {
    if lines == [] then []
    else (if IsContext(lines[0]) || IsDeletion(lines[0]) then [lines[0][1..]] else []) + OldSide(lines[1..])
  }

  /** The texts of the context and insertion lines: what the hunk writes. */
  function NewSide(lines: seq<string>): seq<string> {
    if lines == [] then []
    else (if IsContext(lines[0]) || IsInsertion(lines[0]) then [lines[0][1..]] else []) + NewSide(lines[1..])
  }

  /** The deletions of a body read against the original from `anchor`: each
      context or deletion line stands for the next original line, and each
      deletion line must equal it. Context lines are not compared. */
  predicate DeletionsMatch(orig: seq<string>, lines: seq<string>, anchor: nat)
    decreases |lines|
  {
    lines == [] ||
    ((IsDeletion(lines[0]) ==> anchor < |orig| && orig[anchor] == lines[0][1..]) &&
     DeletionsMatch(orig, lines[1..], anchor + Consumed(lines[0])))
  }

  /** The old side of a body is that of its first line followed by the rest's. */
  lemma OldSidePrefix(lines: seq<string>, i: nat)
    requires 1 <= i <= |lines|
    ensures |OldSide(lines[..i])| == Consumed(lines[0]) + |OldSide(lines[1..][..i - 1])|
  {
    assert lines[..i] == [lines[0]] + lines[1..][..i - 1];
    OldSideAppend([lines[0]], lines[1..][..i - 1]);
  }

  /** DeletionsMatch read line by line: every deletion equals the original
      line at the anchor plus the number of old-side lines before it. */
  lemma {:induction false} DeletionsMatchEvery(orig: seq<string>, lines: seq<string>, anchor: nat)
    ensures DeletionsMatch(orig, lines, anchor) <==>
      forall i :: 0 <= i < |lines| && IsDeletion(lines[i]) ==>
        anchor + |OldSide(lines[..i])| < |orig| && orig[anchor + |OldSide(lines[..i])|] == lines[i][1..]
    decreases |lines|
  {
    if lines != [] {
      var rest := lines[1..];
      var next := anchor + Consumed(lines[0]);
      DeletionsMatchEvery(orig, rest, next);
      forall i | 1 <= i <= |lines|
        ensures |OldSide(lines[..i])| == Consumed(lines[0]) + |OldSide(rest[..i - 1])|
      {
        OldSidePrefix(lines, i);
      }
      assert lines[..0] == [];
      assert forall i :: 0 < i < |lines| ==> lines[i] == rest[i - 1];
      assert forall i :: 0 <= i < |rest| ==> rest[i] == lines[i + 1];
    }
  }

  lemma {:induction false} OldSideAppend(a: seq<string>, b: seq<string>)
    ensures OldSide(a + b) == OldSide(a) + OldSide(b)
    decreases |a|
  {
    if a != [] {
      var x := if IsContext(a[0]) || IsDeletion(a[0]) then [a[0][1..]] else [];
      assert (a + b)[0] == a[0];
      assert (a + b)[1..] == a[1..] + b;
      assert OldSide(a + b) == x + OldSide(a[1..] + b);
      assert OldSide(a) == x + OldSide(a[1..]);
      OldSideAppend(a[1..], b);
    } else {
      assert a + b == b;
    }
  }

  lemma AppendOne(out: seq<string>, x: string, rest: seq<string>)
    ensures out + [x] + rest == out + ([x] + rest)
  {
  }

  /** One hunk body: it succeeds exactly when its deletions match; it then
      appends the new side and moves the cursor past the old side. Its only
      failure is the deletion mismatch. */
  lemma {:induction false} ApplyLinesMeaning(orig: seq<string>, lines: seq<string>, out: seq<string>, cursor: nat)
    ensures var r := ApplyLines(orig, lines, out, cursor);
      && (r.Ok? <==> DeletionsMatch(orig, lines, cursor))
      && (r.Ok? ==> r.value == Progress(out + NewSide(lines), cursor + |OldSide(lines)|))
      && (r.Err? ==> r.error == PatchApplyError(DeletionMismatch))
    decreases |lines|
  {
    if lines != [] {
      var line, rest := lines[0], lines[1..];
      if IsContext(line) {
        ApplyLinesMeaning(orig, rest, out + [line[1..]], cursor + 1);
        AppendOne(out, line[1..], NewSide(rest));
      } else if IsDeletion(line) {
        if !(cursor >= |orig| || orig[cursor] != line[1..]) {
          ApplyLinesMeaning(orig, rest, out, cursor + 1);
        }
      } else if IsInsertion(line) {
        ApplyLinesMeaning(orig, rest, out + [line[1..]], cursor);
        AppendOne(out, line[1..], NewSide(rest));
      } else {
        ApplyLinesMeaning(orig, rest, out, cursor);
      }
    }
  }

  /** Where the cursor stands after a hunk: its anchor plus its old side. */
  function HunkEnd(h: Hunk): nat {
    h.origStart + |OldSide(h.lines)|
  }

  /** A hunk applies when its deletions match and it ends within the original. */
  predicate HunkApplies(orig: seq<string>, h: Hunk) {
    DeletionsMatch(orig, h.lines, h.origStart) && HunkEnd(h) <= |orig|
  }

  /** Reference reading of a run: for each hunk, the original from the previous
      hunk's end up to this hunk's anchor, then the hunk's new side. */
  function Patched(orig: seq<string>, hunks: seq<Hunk>, from: nat): seq<string> {
    if hunks == [] then []
    else Slice(orig, from, hunks[0].origStart) + NewSide(hunks[0].lines) + Patched(orig, hunks[1..], HunkEnd(hunks[0]))
  }

  function FinalCursor(hunks: seq<Hunk>, from: nat): nat {
    if hunks == [] then from else HunkEnd(hunks[|hunks| - 1])
  }

  /** Every hunk of a run applies. */
  predicate AllApply(orig: seq<string>, hunks: seq<Hunk>)
    decreases |hunks|
  {
    hunks == [] || (HunkApplies(orig, hunks[0]) && AllApply(orig, hunks[1..]))
  }

  /** AllApply read as a statement about every hunk. */
  lemma {:induction false} AllApplyEvery(orig: seq<string>, hunks: seq<Hunk>)
    ensures AllApply(orig, hunks) <==> forall i :: 0 <= i < |hunks| ==> HunkApplies(orig, hunks[i])
    decreases |hunks|
  {
    if hunks != [] {
      var rest := hunks[1..];
      AllApplyEvery(orig, rest);
      assert forall i :: 0 < i < |hunks| ==> hunks[i] == rest[i - 1];
      assert forall i :: 0 <= i < |rest| ==> rest[i] == hunks[i + 1];
    }
  }

  /** One turn of the hunk loop, for a hunk that applies. */
  lemma ApplyHunksStep(orig: seq<string>, hunks: seq<Hunk>, out: seq<string>, cursor: nat)
    requires cursor <= |orig| && hunks != [] && HunkApplies(orig, hunks[0])
    ensures ApplyHunks(orig, hunks, out, cursor)
         == ApplyHunks(orig, hunks[1..], out + Slice(orig, cursor, hunks[0].origStart) + NewSide(hunks[0].lines),
                       HunkEnd(hunks[0]))
  {
    var h := hunks[0];
    ApplyLinesMeaning(orig, h.lines, out + Slice(orig, cursor, h.origStart), h.origStart);
  }

  /** One turn of the hunk loop, for a hunk that does not apply. */
  lemma ApplyHunksStop(orig: seq<string>, hunks: seq<Hunk>, out: seq<string>, cursor: nat)
    requires cursor <= |orig| && hunks != [] && !HunkApplies(orig, hunks[0])
    ensures ApplyHunks(orig, hunks, out, cursor) == Err(PatchApplyError(
      if DeletionsMatch(orig, hunks[0].lines, hunks[0].origStart) then CursorExceeded else DeletionMismatch))
  {
    var h := hunks[0];
    ApplyLinesMeaning(orig, h.lines, out + Slice(orig, cursor, h.origStart), h.origStart);
  }

  lemma PatchedCons(orig: seq<string>, hunks: seq<Hunk>, out: seq<string>, cursor: nat)
    requires hunks != []
    ensures out + Slice(orig, cursor, hunks[0].origStart) + NewSide(hunks[0].lines) + Patched(orig, hunks[1..], HunkEnd(hunks[0]))
         == out + Patched(orig, hunks, cursor)
    ensures FinalCursor(hunks[1..], HunkEnd(hunks[0])) == FinalCursor(hunks, cursor)
  {
    var gap, mid, tail := Slice(orig, cursor, hunks[0].origStart), NewSide(hunks[0].lines), Patched(orig, hunks[1..], HunkEnd(hunks[0]));
    assert Patched(orig, hunks, cursor) == gap + mid + tail;
    Associate(out, gap, mid, tail);
    FinalCursorCons(hunks, cursor);
  }

  lemma Associate(a: seq<string>, b: seq<string>, c: seq<string>, d: seq<string>)
    ensures a + b + c + d == a + (b + c + d)
  {
  }

  lemma FinalCursorCons(hunks: seq<Hunk>, cursor: nat)
    requires hunks != []
    ensures FinalCursor(hunks[1..], HunkEnd(hunks[0])) == FinalCursor(hunks, cursor)
  {
    var rest := hunks[1..];
    if rest != [] {
      assert rest[|rest| - 1] == hunks[|hunks| - 1];
    }
  }

  /** The hunk loop succeeds exactly when every hunk applies, and then
      produces the reference reading and ends at the last hunk's end. */
  lemma {:induction false} ApplyHunksMeaning(orig: seq<string>, hunks: seq<Hunk>, out: seq<string>, cursor: nat)
    requires cursor <= |orig|
    ensures var r := ApplyHunks(orig, hunks, out, cursor);
      && (r.Ok? <==> AllApply(orig, hunks))
      && (r.Ok? ==> r.value == Progress(out + Patched(orig, hunks, cursor), FinalCursor(hunks, cursor)))
    decreases |hunks|
  {
    if hunks != [] {
      var h := hunks[0];
      if HunkApplies(orig, h) {
        ApplyHunksStep(orig, hunks, out, cursor);
        ApplyHunksMeaning(orig, hunks[1..], out + Slice(orig, cursor, h.origStart) + NewSide(h.lines), HunkEnd(h));
        PatchedCons(orig, hunks, out, cursor);
      } else {
        ApplyHunksStop(orig, hunks, out, cursor);
      }
    }
  }

  /** The hunk loop fails at the first hunk that does not apply: with the
      deletion-mismatch message if its deletions do not match, and with the
      cursor-exceeded message if it only ends past the original. */
  lemma {:induction false} ApplyHunksFirstFailure(orig: seq<string>, hunks: seq<Hunk>, out: seq<string>, cursor: nat, k: nat)
    requires cursor <= |orig|
    requires k < |hunks| && !HunkApplies(orig, hunks[k]) && AllApply(orig, hunks[..k])
    ensures ApplyHunks(orig, hunks, out, cursor) == Err(PatchApplyError(
      if DeletionsMatch(orig, hunks[k].lines, hunks[k].origStart) then CursorExceeded else DeletionMismatch))
    decreases k
  {
    var h, rest := hunks[0], hunks[1..];
    if k > 0 {
      assert hunks[..k][0] == h && hunks[..k][1..] == rest[..k - 1];
      assert rest[k - 1] == hunks[k];
      ApplyHunksStep(orig, hunks, out, cursor);
      ApplyHunksFirstFailure(orig, rest, out + Slice(orig, cursor, h.origStart) + NewSide(h.lines), HunkEnd(h), k - 1);
    } else {
      ApplyHunksStop(orig, hunks, out, cursor);
    }
  }

  /** A whole run on original and diff lines: it succeeds exactly when the
      diff parses and every hunk applies, and its lines are then the reference
      reading followed by the original from the final cursor to the end. */
  lemma PatchLinesMeaning(orig: seq<string>, diffLines: seq<string>)
    ensures PatchLines(orig, diffLines).Ok? <==>
      ParseLines(diffLines).Ok? && AllApply(orig, ParseLines(diffLines).value)
    ensures PatchLines(orig, diffLines).Ok? ==>
      var hunks := ParseLines(diffLines).value;
      FinalCursor(hunks, 0) <= |orig| &&
      PatchLines(orig, diffLines).value == Patched(orig, hunks, 0) + orig[FinalCursor(hunks, 0)..]
  {
    if ParseLines(diffLines).Ok? {
      var hunks := ParseLines(diffLines).value;
      ApplyHunksMeaning(orig, hunks, [], 0);
      assert [] + Patched(orig, hunks, 0) == Patched(orig, hunks, 0);
    }
  }

  /** Output framed by a copied prefix of the original and a copied suffix. */
  lemma Framed(orig: seq<string>, result: seq<string>, mid: seq<string>, first: nat, end: nat)
    requires end <= |orig| && result == Slice(orig, 0, first) + mid + orig[end..]
    ensures var lead := if first < |orig| then first else |orig|;
      && lead <= |result| && result[..lead] == orig[..lead]
      && |orig| - end <= |result| && result[|result| - (|orig| - end)..] == orig[end..]
  {
    var lead := if first < |orig| then first else |orig|;
    var gap := Slice(orig, 0, first);
    assert gap == orig[..lead];
    assert result[..|gap|] == gap;
    assert result[|result| - |orig[end..]|..] == orig[end..];
  }

  /** Original lines before the first hunk's anchor open the output unchanged;
      original lines from the final cursor on close it unchanged. With
      PatchLinesMeaning this holds for every successful PatchLines. */
  lemma UntouchedRegionsCopied(orig: seq<string>, hunks: seq<Hunk>)
    requires hunks != [] && AllApply(orig, hunks)
    ensures FinalCursor(hunks, 0) <= |orig|
    ensures var result := Patched(orig, hunks, 0) + orig[FinalCursor(hunks, 0)..];
      var lead := if hunks[0].origStart < |orig| then hunks[0].origStart else |orig|;
      var end := FinalCursor(hunks, 0);
      && lead <= |result| && result[..lead] == orig[..lead]
      && |orig| - end <= |result| && result[|result| - (|orig| - end)..] == orig[end..]
  {
    var end := FinalCursor(hunks, 0);
    var mid := NewSide(hunks[0].lines) + Patched(orig, hunks[1..], HunkEnd(hunks[0]));
    assert end <= |orig| by {
      ApplyHunksMeaning(orig, hunks, [], 0);
    }
    assert Patched(orig, hunks, 0) == Slice(orig, 0, hunks[0].origStart) + mid;
    Framed(orig, Patched(orig, hunks, 0) + orig[end..], mid, hunks[0].origStart, end);
  }

  /** A hunk whose old side is exactly the original lines at its anchor has
      matching deletions. */
  lemma OldSideMatchImpliesDeletionsMatch(orig: seq<string>, lines: seq<string>, anchor: nat)
    requires anchor + |OldSide(lines)| <= |orig|
    requires OldSide(lines) == orig[anchor..anchor + |OldSide(lines)|]
    ensures DeletionsMatch(orig, lines, anchor)
  {
    forall i | 0 <= i < |lines| && IsDeletion(lines[i])
      ensures anchor + |OldSide(lines[..i])| < |orig| && orig[anchor + |OldSide(lines[..i])|] == lines[i][1..]
    {
      assert lines == lines[..i] + lines[i..];
      OldSideAppend(lines[..i], lines[i..]);
      assert OldSide(lines[i..]) == [lines[i][1..]] + OldSide(lines[i + 1..]);
      assert OldSide(lines)[|OldSide(lines[..i])|] == lines[i][1..];
    }
    DeletionsMatchEvery(orig, lines, anchor);
  }

  /** The classic reading of a one-hunk diff: when the hunk's old side is the
      block of original lines at its anchor, the result is the original with
      that block replaced by the hunk's new side. */
  lemma SingleHunkReplacesBlock(orig: seq<string>, diffLines: seq<string>, h: Hunk)
    requires ParseLines(diffLines) == Ok([h])
    requires h.origStart + |OldSide(h.lines)| <= |orig|
    requires OldSide(h.lines) == orig[h.origStart..h.origStart + |OldSide(h.lines)|]
    ensures PatchLines(orig, diffLines)
         == Ok(orig[..h.origStart] + NewSide(h.lines) + orig[h.origStart + |OldSide(h.lines)|..])
  {
    OldSideMatchImpliesDeletionsMatch(orig, h.lines, h.origStart);
    PatchLinesMeaning(orig, diffLines);
    PatchedSingle(orig, h);
  }

  lemma PatchedSingle(orig: seq<string>, h: Hunk)
    requires HunkApplies(orig, h)
    ensures AllApply(orig, [h])
    ensures Patched(orig, [h], 0) == orig[..h.origStart] + NewSide(h.lines)
    ensures FinalCursor([h], 0) == h.origStart + |OldSide(h.lines)|
  {
    assert [h][1..] == [];
    assert Slice(orig, 0, h.origStart) == orig[..h.origStart];
    assert orig[..h.origStart] + NewSide(h.lines) + [] == orig[..h.origStart] + NewSide(h.lines);
  }

  // ---------------------------------------------------------------------------
  // Trailing newline
  // ---------------------------------------------------------------------------

  lemma {:induction false} NewSideNoNewlines(lines: seq<string>)
    requires NoNewlines(lines)
    ensures NoNewlines(NewSide(lines))
    decreases |lines|
  {
    if lines != [] {
      NewSideNoNewlines(lines[1..]);
      if IsContext(lines[0]) || IsInsertion(lines[0]) {
        assert '\n' !in lines[0];
        assert forall c :: c in lines[0][1..] ==> c in lines[0];
      }
    }
  }

  lemma {:induction false} PatchedNoNewlines(orig: seq<string>, hunks: seq<Hunk>, from: nat)
    requires NoNewlines(orig)
    requires forall i :: 0 <= i < |hunks| ==> NoNewlines(hunks[i].lines)
    ensures NoNewlines(Patched(orig, hunks, from))
    decreases |hunks|
  {
    if hunks != [] {
      NewSideNoNewlines(hunks[0].lines);
      PatchedNoNewlines(orig, hunks[1..], HunkEnd(hunks[0]));
    }
  }

  /** Lines produced from original and diff lines without newlines hold none. */
  lemma PatchLinesNoNewlines(orig: seq<string>, diffLines: seq<string>)
    requires NoNewlines(orig) && NoNewlines(diffLines)
    requires PatchLines(orig, diffLines).Ok?
    ensures NoNewlines(PatchLines(orig, diffLines).value)
  {
    PatchLinesMeaning(orig, diffLines);
    ParsedLinesAreBodyLines(diffLines);
    var hunks := ParseLines(diffLines).value;
    PatchedNoNewlines(orig, hunks, 0);
  }

  /** A patched text ends in '\n' whenever the original does; when the original
      does not, it ends in '\n' exactly when at least two lines are produced and
      the last of them is empty. */
  lemma TrailingNewline(originalContent: string, diff: string)
    requires ApplyDiff(originalContent, diff).Ok?
    ensures EndsWith(originalContent, "\n") ==> EndsWith(ApplyDiff(originalContent, diff).value, "\n")
    ensures var newLines := PatchLines(SplitLines(originalContent), SplitLines(diff)).value;
      EndsWith(ApplyDiff(originalContent, diff).value, "\n") <==>
        EndsWith(originalContent, "\n") || (|newLines| >= 2 && newLines[|newLines| - 1] == "")
  {
    var orig, diffLines := SplitLines(originalContent), SplitLines(diff);
    var trailing := EndsWith(originalContent, "\n");
    assert ApplyDiff(originalContent, diff).value == Render(PatchLines(orig, diffLines).value, trailing);
    assert NoNewlines(orig) && NoNewlines(diffLines);
    PatchLinesNoNewlines(orig, diffLines);
    RenderEndsWithNewline(PatchLines(orig, diffLines).value, trailing);
  }

  /** Splitting text whose lines hold no newline and which has no final
      newline gives those lines back. */
  lemma SplitLinesJoined(lines: seq<string>)
    requires lines != [] && NoNewlines(lines)
    requires lines[|lines| - 1] != []
    ensures SplitLines(Join(lines)) == lines
  {
    var s := Join(lines);
    SplitJoin(lines);
    if |lines| == 1 {
      assert s == lines[0];
    } else {
      JoinLast(lines);
      var last := lines[|lines| - 1];
      assert s[|s| - 1] == last[|last| - 1];
      assert last[|last| - 1] in last;
    }
  }

  /** A concrete header anchored at line 0. */
  lemma OneTwoHeader(header: string)
    requires header == "@@ -1 +1,2 @@"
    ensures IsHunkHeader(header) && ParseHunkHeader(header) == Ok(0)
  {
    assert IsDigits("1") && DecimalValue("1") == 1;
    CanonicalHeaderStart("1", "", "+1,2", "");
    assert "@@ -" + "1" + "" + " " + "+1,2" + " @@" + "" == header;
  }

  /** The header of the rejected-deletion test, also anchored at line 0. */
  lemma OneOneHeader(header: string)
    requires header == "@@ -1 +1 @@"
    ensures IsHunkHeader(header) && ParseHunkHeader(header) == Ok(0)
  {
    assert IsDigits("1") && DecimalValue("1") == 1;
    CanonicalHeaderStart("1", "", "+1", "");
    assert "@@ -" + "1" + "" + " " + "+1" + " @@" + "" == header;
  }

  /** One "@@" line followed by lines that are all body lines parses to a
      single hunk. */
  lemma OneHunkOf(pre: seq<string>, header: string, body: seq<string>, lines: seq<string>, start: nat)
    requires forall i :: 0 <= i < |pre| ==> IsFileHeader(pre[i]) && !IsHunkHeader(pre[i])
    requires IsHunkHeader(header) && ParseHunkHeader(header) == Ok(start)
    requires body != [] && forall i :: 0 <= i < |body| ==> IsBodyLine(body[i])
    requires lines == pre + ([header] + body)
    ensures ParseLines(lines) == Ok([Hunk(start, body)])
  {
    AllBodies(body);
    SingleHunkParse(pre, header, body);
  }

  lemma {:induction false} AllBodies(body: seq<string>)
    requires forall i :: 0 <= i < |body| ==> IsBodyLine(body[i])
    ensures Bodies(body) == body
    decreases |body|
  {
    if body != [] {
      AllBodies(body[1..]);
      assert [body[0]] + body[1..] == body;
    }
  }

  lemma GainedNewlinePatch(header: string)
    requires IsHunkHeader(header) && ParseHunkHeader(header) == Ok(0)
    ensures PatchLines(["x"], [header, " x", "+"]) == Ok(["x", ""])
  {
    OneHunkOf([], header, [" x", "+"], [header, " x", "+"], 0);
    GainedNewlineSides();
    SingleHunkReplacesBlock(["x"], [header, " x", "+"], Hunk(0, [" x", "+"]));
  }

  lemma GainedNewlineSides()
    ensures OldSide([" x", "+"]) == ["x"] && NewSide([" x", "+"]) == ["x", ""]
    ensures ["x"][..0] + ["x", ""] + ["x"][1..] == ["x", ""]
  {
    assert " x"[1..] == "x" && "+"[1..] == "";
  }

  lemma GainedNewlineText()
    ensures SplitLines("x") == ["x"] && !EndsWith("x", "\n")
    ensures Render(["x", ""], false) == "x\n"
  {
    assert NoNewlines(["x"]) && Join(["x"]) == "x";
    SplitLinesJoined(["x"]);
  }

  /** The original "x" has no final newline, yet a hunk that keeps "x" and
      inserts an empty line yields "x\n". `diff` stands for any text whose
      lines are those of "@@ -1 +1,2 @@\n x\n+" (GainedNewlineDiff). */
  lemma TrailingNewlineGainedByEmptyLastLine(diff: string, header: string)
    requires SplitLines(diff) == [header, " x", "+"]
    requires IsHunkHeader(header) && ParseHunkHeader(header) == Ok(0)
    ensures !EndsWith("x", "\n") && ApplyDiff("x", diff) == Ok("x\n")
  {
    GainedNewlineText();
    GainedNewlinePatch(header);
  }

  lemma GainedNewlineDiff()
    ensures SplitLines("@@ -1 +1,2 @@\n x\n+") == ["@@ -1 +1,2 @@", " x", "+"]
    ensures IsHunkHeader("@@ -1 +1,2 @@") && ParseHunkHeader("@@ -1 +1,2 @@") == Ok(0)
  {
    var diffLines := ["@@ -1 +1,2 @@", " x", "+"];
    assert Join(diffLines) == "@@ -1 +1,2 @@\n x\n+";
    assert NoNewlines(diffLines);
    SplitLinesJoined(diffLines);
    OneTwoHeader("@@ -1 +1,2 @@");
  }

  // ---------------------------------------------------------------------------
  // Worked scenarios
  // ---------------------------------------------------------------------------

  lemma FileHeaderLines()
    ensures IsFileHeader("--- note.txt") && !IsHunkHeader("--- note.txt")
    ensures IsFileHeader("+++ note.txt") && !IsHunkHeader("+++ note.txt")
  {
    assert "--- note.txt"[..3] == "---";
    assert "+++ note.txt"[..3] == "+++";
  }

  /** A line whose second character is a letter is a body line whenever it
      does not start with "@@". */
  lemma LetterLine(line: string)
    requires |line| >= 2 && line[0] != '@' && line[0] != 'd' && 'a' <= line[1] <= 'z'
    ensures IsBodyLine(line)
  {
    if |line| >= 3 {
      assert line[..3][1] == line[1];
    }
  }

  lemma InsertWorldParse(header: string)
    requires IsHunkHeader(header) && ParseHunkHeader(header) == Ok(0)
    ensures ParseLines(["--- note.txt", "+++ note.txt", header, "-hello", "+hello", "+world"])
         == Ok([Hunk(0, ["-hello", "+hello", "+world"])])
  {
    FileHeaderLines();
    LetterLine("-hello");
    LetterLine("+hello");
    LetterLine("+world");
    OneHunkOf(["--- note.txt", "+++ note.txt"], header, ["-hello", "+hello", "+world"],
              ["--- note.txt", "+++ note.txt", header, "-hello", "+hello", "+world"], 0);
  }

  lemma InsertWorldPatch(header: string)
    requires IsHunkHeader(header) && ParseHunkHeader(header) == Ok(0)
    ensures PatchLines(["hello"], ["--- note.txt", "+++ note.txt", header, "-hello", "+hello", "+world"])
         == Ok(["hello", "world"])
  {
    InsertWorldParse(header);
    InsertWorldSides();
    SingleHunkReplacesBlock(["hello"], ["--- note.txt", "+++ note.txt", header, "-hello", "+hello", "+world"],
                            Hunk(0, ["-hello", "+hello", "+world"]));
  }

  lemma InsertWorldSides()
    ensures OldSide(["-hello", "+hello", "+world"]) == ["hello"]
    ensures NewSide(["-hello", "+hello", "+world"]) == ["hello", "world"]
    ensures ["hello"][..0] + ["hello", "world"] + ["hello"][1..] == ["hello", "world"]
  {
    assert "-hello"[1..] == "hello" && "+hello"[1..] == "hello" && "+world"[1..] == "world";
  }

  lemma NoteText()
    ensures SplitLines("hello\n") == ["hello"] && EndsWith("hello\n", "\n")
    ensures Render(["hello", "world"], true) == "hello\nworld\n"
  {
    assert Render(["hello"], true) == "hello\n";
    SplitLinesRendered(["hello"]);
  }

  /** Replacing "hello" by "hello" and "world" in "hello\n", with a diff whose
      lines are "--- note.txt", "+++ note.txt", a header anchored at line 0
      such as "@@ -1 +1,2 @@", "-hello", "+hello" and "+world". */
  lemma ScenarioInsertWorld(diff: string, header: string)
    requires SplitLines(diff) == ["--- note.txt", "+++ note.txt", header, "-hello", "+hello", "+world"]
    requires IsHunkHeader(header) && ParseHunkHeader(header) == Ok(0)
    ensures ApplyDiff("hello\n", diff) == Ok("hello\nworld\n")
  {
    NoteText();
    InsertWorldPatch(header);
  }

  lemma DeletionMismatchPatch(header: string)
    requires IsHunkHeader(header) && ParseHunkHeader(header) == Ok(0)
    ensures PatchLines(["hello"], ["--- note.txt", "+++ note.txt", header, "-wrong", "+hi"])
         == Err(PatchApplyError(DeletionMismatch))
  {
    var pre := ["--- note.txt", "+++ note.txt"];
    var h := Hunk(0, ["-wrong", "+hi"]);
    FileHeaderLines();
    LetterLine("-wrong");
    LetterLine("+hi");
    OneHunkOf(pre, header, h.lines, ["--- note.txt", "+++ note.txt", header, "-wrong", "+hi"], 0);
    assert "-wrong"[1..] == "wrong";
    assert !DeletionsMatch(["hello"], h.lines, 0);
    assert [h][..0] == [];
    ApplyHunksFirstFailure(["hello"], [h], [], 0, 0);
  }

  /** Deleting "wrong" where the original holds "hello" fails, for a diff
      whose lines are "--- note.txt", "+++ note.txt", a header anchored at
      line 0 such as "@@ -1 +1 @@", "-wrong" and "+hi". */
  lemma ScenarioDeletionMismatch(diff: string, header: string)
    requires SplitLines(diff) == ["--- note.txt", "+++ note.txt", header, "-wrong", "+hi"]
    requires IsHunkHeader(header) && ParseHunkHeader(header) == Ok(0)
    ensures ApplyDiff("hello\n", diff) == Err(PatchApplyError(DeletionMismatch))
  {
    NoteText();
    DeletionMismatchPatch(header);
  }

  /** A hunk made of one context line applies at any anchor inside the
      original, whatever the context text. */
  lemma ContextHunk(orig: seq<string>, k: nat, z: string)
    requires k < |orig|
    ensures HunkApplies(orig, Hunk(k, [" " + z]))
    ensures NewSide([" " + z]) == [z] && HunkEnd(Hunk(k, [" " + z])) == k + 1
  {
    var lines := [" " + z];
    assert lines[0][1..] == z;
    assert OldSide(lines) == [z];
    assert NewSide(lines) == [z];
    assert DeletionsMatch(orig, lines[1..], k + 1);
  }

  /** One turn of the hunk loop for a one-context-line hunk. */
  lemma ContextHunkThen(orig: seq<string>, rest: seq<Hunk>, out: seq<string>, cursor: nat, k: nat, z: string)
    requires cursor <= |orig| && k < |orig|
    ensures ApplyHunks(orig, [Hunk(k, [" " + z])] + rest, out, cursor)
         == ApplyHunks(orig, rest, out + Slice(orig, cursor, k) + [z], k + 1)
  {
    var hunks := [Hunk(k, [" " + z])] + rest;
    ContextHunk(orig, k, z);
    ApplyHunksStep(orig, hunks, out, cursor);
    assert hunks[1..] == rest;
  }

  /** Context lines are emitted from the diff text and never compared with
      the original. */
  lemma ContextTextIsNotCompared(orig: seq<string>, k: nat, z: string)
    requires k < |orig|
    ensures ApplyHunks(orig, [Hunk(k, [" " + z])], [], 0) == Ok(Progress(orig[..k] + [z], k + 1))
  {
    var h := Hunk(k, [" " + z]);
    var none: seq<Hunk> := [];
    calc {
      ApplyHunks(orig, [h], [], 0);
      { assert [h] == [h] + none; }
      ApplyHunks(orig, [h] + none, [], 0);
      { ContextHunkThen(orig, none, [], 0, k, z); }
      ApplyHunks(orig, none, [] + Slice(orig, 0, k) + [z], k + 1);
      Ok(Progress([] + Slice(orig, 0, k) + [z], k + 1));
      { assert [] + Slice(orig, 0, k) == orig[..k]; }
      Ok(Progress(orig[..k] + [z], k + 1));
    }
  }

  lemma RepeatedOutput(orig: seq<string>, y: string, z: string)
    requires |orig| >= 2
    ensures [] + Slice(orig, 0, 1) + [y] + Slice(orig, 2, 0) + [z] == [orig[0], y, z]
  {
    assert Slice(orig, 0, 1) == [orig[0]];
  }

  /** Hunks are not required to be in order: a second hunk anchored before the
      first one's end moves the cursor back, so original line 0 is emitted
      twice when the context lines repeat the original. */
  lemma OutOfOrderHunksRepeatLines(orig: seq<string>, y: string, z: string)
    requires |orig| >= 2
    ensures ApplyHunks(orig, [Hunk(1, [" " + y]), Hunk(0, [" " + z])], [], 0)
         == Ok(Progress([orig[0], y, z], 1))
  {
    var second := [Hunk(0, [" " + z])];
    var out := [] + Slice(orig, 0, 1) + [y];
    assert [Hunk(1, [" " + y]), Hunk(0, [" " + z])] == [Hunk(1, [" " + y])] + second;
    ContextHunkThen(orig, second, [], 0, 1, y);
    ContextHunkThen(orig, [], out, 2, 0, z);
    assert second + [] == second;
    RepeatedOutput(orig, y, z);
  }
}
