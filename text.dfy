/**
 * The string operations the patch pipeline relies on, written out as explicit
 * functions: line splitting and joining (str.splitlines / "\n".join), whitespace
 * trimming (str.strip / str.lstrip), prefix, suffix and substring tests, and the
 * small scanners used to read a hunk header.
 *
 * Lines are split on '\n' only; the whitespace set is the six ASCII whitespace
 * characters.
 */
module Text {
  import opened Results

  // ---------------------------------------------------------------------------
  // Whitespace and trimming
  // ---------------------------------------------------------------------------

  /** The ASCII whitespace characters: space, tab, LF, CR, VT and FF. */
  predicate IsSpace(c: char) {
    c == ' ' || c == '\t' || c == '\n' || c == '\r' || c == '\U{B}' || c == '\U{C}'
  }

  /** Every character of `s` is whitespace (this includes the empty string). */
  predicate IsBlank(s: string) {
    forall i :: 0 <= i < |s| ==> IsSpace(s[i])
  }

  /** Leading whitespace removed (str.lstrip()). */
  function TrimStart(s: string): string {
    if s != [] && IsSpace(s[0]) then TrimStart(s[1..]) else s
  }

  /** Trailing whitespace removed (str.rstrip()). */
  function TrimEnd(s: string): string {
    if s != [] && IsSpace(s[|s| - 1]) then TrimEnd(s[..|s| - 1]) else s
  }

  /** Whitespace removed at both ends (str.strip()). */
  function Trim(s: string): string {
    TrimEnd(TrimStart(s))
  }

  /** TrimStart removes a prefix, leaves no leading whitespace, and leaves
      nothing exactly when the string is blank. */
  lemma {:induction false} TrimStartFacts(s: string)
    ensures var r := TrimStart(s);
      |r| <= |s| && r == s[|s| - |r|..] &&
      (r != [] ==> !IsSpace(r[0])) &&
      (r == [] <==> IsBlank(s))
    decreases |s|
  {
    if s != [] && IsSpace(s[0]) {
      TrimStartFacts(s[1..]);
      assert IsBlank(s) <==> IsBlank(s[1..]) by {
        assert forall i :: 0 <= i < |s[1..]| ==> s[1..][i] == s[i + 1];
      }
    } else if s != [] {
      assert !IsSpace(s[0]);
    }
  }

  /** TrimEnd removes a suffix, leaves no trailing whitespace, and leaves
      nothing exactly when the string is blank. */
  lemma {:induction false} TrimEndFacts(s: string)
    ensures var r := TrimEnd(s);
      |r| <= |s| && r == s[..|r|] &&
      (r != [] ==> !IsSpace(r[|r| - 1])) &&
      (r == [] <==> IsBlank(s))
    decreases |s|
  {
    if s != [] && IsSpace(s[|s| - 1]) {
      var t := s[..|s| - 1];
      TrimEndFacts(t);
      assert IsBlank(s) <==> IsBlank(t) by {
        assert forall i :: 0 <= i < |t| ==> t[i] == s[i];
      }
      assert t[..|TrimEnd(t)|] == s[..|TrimEnd(t)|];
    } else if s != [] {
      assert !IsSpace(s[|s| - 1]);
    }
  }

  /** Stripping leaves nothing exactly when the string is blank, and otherwise
      leaves no whitespace at either end. */
  lemma TrimFacts(s: string)
    ensures Trim(s) == [] <==> IsBlank(s)
    ensures Trim(s) != [] ==> !IsSpace(Trim(s)[0]) && !IsSpace(Trim(s)[|Trim(s)| - 1])
  {
    var t := TrimStart(s);
    TrimStartFacts(s);
    TrimEndFacts(t);
    if TrimEnd(t) != [] {
      assert TrimEnd(t)[0] == t[0];
    }
  }

  // ---------------------------------------------------------------------------
  // Prefix, suffix, substring
  // ---------------------------------------------------------------------------

  predicate StartsWith(s: string, prefix: string) {
    |prefix| <= |s| && s[..|prefix|] == prefix
  }

  predicate EndsWith(s: string, suffix: string) {
    |suffix| <= |s| && s[|s| - |suffix|..] == suffix
  }

  /** `needle` occurs somewhere in `s` (Python's `needle in s`). */
  predicate Contains(s: string, needle: string)
    decreases |s|
  {
    StartsWith(s, needle) || (s != [] && Contains(s[1..], needle))
  }

  lemma {:induction false} ContainsInfix(a: string, needle: string, b: string)
    ensures Contains(a + needle + b, needle)
    decreases |a|
  {
    var s := a + needle + b;
    if a == [] {
      assert s[..|needle|] == needle;
    } else {
      assert s[1..] == a[1..] + needle + b;
      ContainsInfix(a[1..], needle, b);
    }
  }

  // ---------------------------------------------------------------------------
  // Lines
  // ---------------------------------------------------------------------------

  /** `s` cut at every '\n' (str.split("\n")): one more piece than there are
      newlines, none of them containing '\n'. */
  function Split(s: string): (r: seq<string>)
    ensures |r| >= 1
    ensures forall i :: 0 <= i < |r| ==> '\n' !in r[i]
  {
    if s == [] then [""]
    else
      var rest := Split(s[1..]);
      if s[0] == '\n' then [""] + rest
      else [[s[0]] + rest[0]] + rest[1..]
  }

  /** str.splitlines() restricted to '\n': no trailing empty piece after a final
      newline, and no lines at all for the empty string. */
  function SplitLines(s: string): (r: seq<string>)
    ensures forall i :: 0 <= i < |r| ==> '\n' !in r[i]
    ensures r == [] <==> s == []
  {
    if s == [] then []
    else if s[|s| - 1] == '\n' then Split(s[..|s| - 1])
    else Split(s)
  }

  /** "\n".join(lines). */
  function Join(lines: seq<string>): string
  {
    if |lines| == 0 then ""
    else if |lines| == 1 then lines[0]
    else lines[0] + "\n" + Join(lines[1..])
  }

  /** The text of a line list, with a final newline when `trailingNewline`. */
  function Render(lines: seq<string>, trailingNewline: bool): string
  {
    Join(lines) + (if trailingNewline then "\n" else "")
  }

  predicate NoNewlines(lines: seq<string>) {
    forall i :: 0 <= i < |lines| ==> '\n' !in lines[i]
  }

  /** Joining the pieces of a split gives the string back. */
  lemma {:induction false} JoinSplit(s: string)
    ensures Join(Split(s)) == s
    decreases |s|
  {
    if s != [] {
      var rest := Split(s[1..]);
      JoinSplit(s[1..]);
      if s[0] == '\n' {
        assert Split(s) == [""] + rest;
        assert ([""] + rest)[1..] == rest;
      } else if |rest| == 1 {
        assert Split(s) == [[s[0]] + rest[0]];
      } else {
        var r := Split(s);
        assert r[1..] == rest[1..];
        assert Join(rest) == rest[0] + "\n" + Join(rest[1..]);
      }
    }
  }

  lemma {:induction false} SplitSingle(a: string)
    requires '\n' !in a
    ensures Split(a) == [a]
    decreases |a|
  {
    if a != [] {
      SplitSingle(a[1..]);
      assert [a[0]] + a[1..] == a;
    }
  }

  lemma {:induction false} SplitAtNewline(a: string, b: string)
    requires '\n' !in a
    ensures Split(a + "\n" + b) == [a] + Split(b)
    decreases |a|
  {
    var s := a + "\n" + b;
    if a == [] {
      assert s[1..] == b;
    } else {
      assert s[0] == a[0] && s[1..] == a[1..] + "\n" + b;
      SplitAtNewline(a[1..], b);
      assert [a[0]] + a[1..] == a;
    }
  }

  /** Splitting joined lines that hold no newline gives the lines back. */
  lemma {:induction false} SplitJoin(lines: seq<string>)
    requires lines != [] && NoNewlines(lines)
    ensures Split(Join(lines)) == lines
    decreases |lines|
  {
    if |lines| == 1 {
      SplitSingle(lines[0]);
    } else {
      SplitJoin(lines[1..]);
      SplitAtNewline(lines[0], Join(lines[1..]));
    }
  }

  /** Text that ends in a newline splits into the lines it was rendered from. */
  lemma SplitLinesRendered(lines: seq<string>)
    requires lines != [] && NoNewlines(lines)
    ensures SplitLines(Render(lines, true)) == lines
  {
    var s := Render(lines, true);
    assert s[..|s| - 1] == Join(lines);
    SplitJoin(lines);
  }

  lemma {:induction false} JoinLast(lines: seq<string>)
    requires |lines| >= 2
    ensures Join(lines) == Join(lines[..|lines| - 1]) + "\n" + lines[|lines| - 1]
    decreases |lines|
  {
    if |lines| > 2 {
      JoinLast(lines[1..]);
      assert lines[1..][..|lines| - 2] == lines[..|lines| - 1][1..];
    }
  }

  /** Rendered text ends in a newline exactly when a trailing newline is added
      or the last of at least two lines is empty. */
  lemma RenderEndsWithNewline(lines: seq<string>, trailingNewline: bool)
    requires NoNewlines(lines)
    ensures EndsWith(Render(lines, trailingNewline), "\n") <==>
      trailingNewline || (|lines| >= 2 && lines[|lines| - 1] == "")
  {
    var s := Render(lines, trailingNewline);
    if !trailingNewline {
      assert s == Join(lines);
      if |lines| == 1 && |s| > 0 {
        assert s[|s| - 1] in lines[0];
      } else if |lines| >= 2 {
        var last := lines[|lines| - 1];
        JoinLast(lines);
        if last != [] {
          assert s[|s| - 1] == last[|last| - 1];
          assert last[|last| - 1] != '\n';
        }
      }
    }
  }

  // ---------------------------------------------------------------------------
  // Scanners used on hunk headers
  // ---------------------------------------------------------------------------

  /** The part of `s` before the first `c` (str.split(c)[0]). */
  function TakeUntil(s: string, c: char): (r: string)
    ensures c !in r
    ensures StartsWith(s, r)
    ensures forall x :: x in r ==> x in s
  {
    if s == [] || s[0] == c then [] else [s[0]] + TakeUntil(s[1..], c)
  }

  /** `s` with every `c` removed (str.replace(c, "")). */
  function RemoveAll(s: string, c: char): (r: string)
    ensures c !in r
    ensures forall x :: x in r ==> x in s
  {
    if s == [] then []
    else if s[0] == c then RemoveAll(s[1..], c)
    else [s[0]] + RemoveAll(s[1..], c)
  }

  /** The text after the first "@@" of `s`, if there is one. */
  function AfterMarker(s: string): (r: Option<string>)
    ensures r.Some? <==> Contains(s, "@@")
    decreases |s|
  {
    if |s| < 2 then None
    else if s[..2] == "@@" then Some(s[2..])
    else AfterMarker(s[1..])
  }

  /** The text of `s` before its first "@@" (all of `s` when there is none). */
  function UpToMarker(s: string): (r: string)
    ensures StartsWith(s, r)
    decreases |s|
  {
    if s == [] || StartsWith(s, "@@") then [] else [s[0]] + UpToMarker(s[1..])
  }

  predicate IsDigit(c: char) {
    '0' <= c <= '9'
  }

  /** A non-empty run of decimal digits. */
  predicate IsDigits(s: string) {
    |s| > 0 && forall i :: 0 <= i < |s| ==> IsDigit(s[i])
  }

  /** The number a string of decimal digits denotes. */
  function DecimalValue(s: string): nat
    requires forall i :: 0 <= i < |s| ==> IsDigit(s[i])
  {
    if s == [] then 0
    else
      assert IsDigit(s[|s| - 1]);
      10 * DecimalValue(s[..|s| - 1]) + (s[|s| - 1] as int - '0' as int)
  }

  lemma {:induction false} TakeUntilConcat(a: string, b: string, c: char)
    requires c !in a
    requires b == [] || b[0] == c
    ensures TakeUntil(a + b, c) == a
    decreases |a|
  {
    if a != [] {
      assert (a + b)[1..] == a[1..] + b;
      TakeUntilConcat(a[1..], b, c);
    }
  }

  lemma {:induction false} RemoveAllAbsent(s: string, c: char)
    requires c !in s
    ensures RemoveAll(s, c) == s
    decreases |s|
  {
    if s != [] {
      RemoveAllAbsent(s[1..], c);
    }
  }

  lemma {:induction false} UpToMarkerConcat(a: string, b: string)
    requires '@' !in a
    ensures UpToMarker(a + "@@" + b) == a
    decreases |a|
  {
    var s := a + "@@" + b;
    if a == [] {
      assert s[..2] == "@@";
    } else {
      assert s[0] == a[0];
      assert s[1..] == a[1..] + "@@" + b;
      UpToMarkerConcat(a[1..], b);
    }
  }
}
