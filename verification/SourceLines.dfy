/**
 Cutting a piece of source text out of cached lines. Text is byte text: one character, one byte.
 */
module SourceLines {
  import opened Bytes

  predicate IsTerminator(c: char) {
    c == '\r' || c == '\n'
  }

  /** One line: not empty, and with a terminator only at its end, which may be `\r\n`. */
  predicate IsLine(s: string) {
    && s != []
    && forall j :: 0 <= j < |s| - 1 && IsTerminator(s[j]) ==> j == |s| - 2 && s[j] == '\r' && s[j + 1] == '\n'
  }

  predicate EndsLine(s: string) {
    s != [] && IsTerminator(s[|s| - 1])
  }

  /** The text `rest` does not begin in the middle of a `\r\n` that `s` begins. */
  predicate KeepsPair(s: string, rest: string) {
    s != [] && s[|s| - 1] == '\r' && rest != [] ==> rest[0] != '\n'
  }

  /** The lines of a text: every one but the last is ended, and no `\r\n` is split. */
  predicate AreLines(lines: seq<string>) {
    && (forall i :: 0 <= i < |lines| ==> IsLine(lines[i]))
    && (forall i :: 0 <= i < |lines| - 1 ==> EndsLine(lines[i]) && KeepsPair(lines[i], lines[i + 1]))
  }

  lemma LinesAreNotEmpty(lines: seq<string>)
    requires AreLines(lines)
    ensures Concat(lines) == [] <==> lines == []
  {
    assert lines != [] ==> IsLine(lines[0]);
  }

  /** There is only one way to cut a text into such lines. */
  lemma {:induction false} LinesAreUnique(a: seq<string>, b: seq<string>)
    requires AreLines(a) && AreLines(b) && Concat(a) == Concat(b)
    ensures a == b
  {
    LinesAreNotEmpty(a);
    LinesAreNotEmpty(b);
    if a != [] {
      FirstLineIsUnique(a, b);
      assert Concat(a)[|a[0]|..] == Concat(a[1..]) && Concat(b)[|b[0]|..] == Concat(b[1..]);
      LinesAreUnique(a[1..], b[1..]);
      assert a == [a[0]] + a[1..] && b == [b[0]] + b[1..];
    }
  }

  lemma FirstLineIsUnique(a: seq<string>, b: seq<string>)
    requires a != [] && b != [] && AreLines(a) && AreLines(b) && Concat(a) == Concat(b)
    ensures a[0] == b[0]
  {
    var s := Concat(a);
    assert s == a[0] + Concat(a[1..]) && s == b[0] + Concat(b[1..]);
    FirstLineNotLonger(a, b);
    FirstLineNotLonger(b, a);
    assert a[0] == s[..|a[0]|] && b[0] == s[..|b[0]|];
  }

  lemma FirstLineNotLonger(a: seq<string>, b: seq<string>)
    requires a != [] && b != [] && AreLines(a) && AreLines(b) && Concat(a) == Concat(b)
    ensures |b[0]| <= |a[0]|
  {
    var s, n := Concat(a), |a[0]|;
    assert s == a[0] + Concat(a[1..]) && s == b[0] + Concat(b[1..]);
    if |a| == 1 {
      assert Concat(a[1..]) == [];
    } else {
      // the last character of a[0] is a terminator; a longer b[0] would have it inside
      assert Concat(a[1..]) == a[1] + Concat(a[2..]) by { assert a[1..][1..] == a[2..]; }
      assert s[n - 1] == a[0][n - 1] && s[n] == a[1][0];
      assert b[0] <= s && (n - 1 < |b[0]| ==> b[0][n - 1] == s[n - 1]);
    }
  }

  /** The first `idx` characters have been cut into ended lines and the start of the next one. */
  ghost predicate Cutting(source: string, lines: seq<string>, nextLine: string, idx: nat) {
    && idx <= |source| && Concat(lines) + nextLine == source[..idx]
    && AreLines(lines) && (forall i :: 0 <= i < |lines| ==> EndsLine(lines[i]))
    && (forall j :: 0 <= j < |nextLine| ==> !IsTerminator(nextLine[j]))
    && (nextLine == [] && lines != [] ==> KeepsPair(lines[|lines| - 1], source[idx..]))
  }

  /** One more character, or a `\r\n`. */
  lemma CutStep(source: string, lines: seq<string>, nextLine: string, idx: nat, piece: string)
    requires Cutting(source, lines, nextLine, idx) && piece != [] && piece <= source[idx..]
    requires |piece| == 1 || (|piece| == 2 && piece[0] == '\r' && piece[1] == '\n')
    requires |piece| == 1 && idx + 1 < |source| && piece[0] == '\r' ==> source[idx + 1] != '\n'
    ensures if IsTerminator(piece[0]) then Cutting(source, lines + [nextLine + piece], [], idx + |piece|)
            else Cutting(source, lines, nextLine + piece, idx + |piece|)
  {
    assert source[..idx] + piece == source[..idx + |piece|];
    Assoc(Concat(lines), nextLine, piece);
    if IsTerminator(piece[0]) {
      var line := nextLine + piece;
      ConcatSnoc(lines, line);
      LineIsAdded(lines, line);
      EmptySuffix(Concat(lines + [line]));
    }
  }

  lemma LineIsAdded(lines: seq<string>, line: string)
    requires AreLines(lines) && IsLine(line)
    requires forall i :: 0 <= i < |lines| ==> EndsLine(lines[i])
    requires lines != [] ==> KeepsPair(lines[|lines| - 1], line)
    ensures AreLines(lines + [line])
  {
  }

  /** `_splitlines_no_ff` */
  method SplitLinesNoFf(source: string) returns (lines: seq<string>)
    ensures Concat(lines) == source && AreLines(lines)
  {
    var idx: nat, nextLine: string := 0, [];
    lines := [];
    while idx < |source|
      invariant Cutting(source, lines, nextLine, idx)
    {
      var c := source[idx];
      var piece := [c];
      if c == '\r' && idx + 1 < |source| && source[idx + 1] == '\n' { piece := [c, '\n']; }
      CutStep(source, lines, nextLine, idx, piece);
      nextLine := nextLine + piece;
      idx := idx + |piece|;
      if IsTerminator(c) {
        lines := lines + [nextLine];
        nextLine := [];
      }
    }
    assert source[..idx] == source;
    if nextLine != [] {
      ConcatSnoc(lines, nextLine);
      LineIsAdded(lines, nextLine);
      lines := lines + [nextLine];
    }
  }

  // ---------------------------------------------------------------- segments

  /** A Python slice `s[a:b]` with non-negative bounds. */
  function PySlice(s: string, a: nat, b: nat): string {
    var lo, hi := Min(a, |s|), Min(b, |s|);
    if lo <= hi then s[lo..hi] else []
  }

  /** `_pad_whitespace` */
  function PadWhitespace(s: string): string {
    if s == [] then [] else [if s[0] == '\t' || s[0] == '\U{c}' then s[0] else ' '] + PadWhitespace(s[1..])
  }

  /** Padding keeps every place: tabs and form feeds stay, everything else becomes a blank. */
  lemma {:induction false} PaddingKeepsPlace(s: string, i: nat)
    requires i < |s|
    ensures |PadWhitespace(s)| == |s|
    ensures PadWhitespace(s)[i] == if s[i] in {'\t', '\U{c}'} then s[i] else ' '
    decreases |s|
  {
    if i > 0 {
      PaddingKeepsPlace(s[1..], i - 1);
    } else if |s| > 1 {
      PaddingKeepsPlace(s[1..], 0);
    }
  }

  /** Where line `i` starts in the source. */
  function LineStart(lines: seq<string>, i: nat): nat
    requires i <= |lines|
  {
    if i == 0 then 0 else LineStart(lines, i - 1) + |lines[i - 1]|
  }

  lemma {:induction false} LineStartIs(lines: seq<string>, i: nat)
    requires i <= |lines|
    ensures LineStart(lines, i) == |Concat(lines[..i])|
  {
    if i > 0 {
      LineStartIs(lines, i - 1);
      ConcatTake(lines, i - 1);
    }
  }

  /** Where a (line, column) position lies in the source; a column past the end of its line is its end. */
  function PositionOf(lines: seq<string>, line: nat, column: nat): nat
    requires line < |lines|
  {
    LineStart(lines, line) + Min(column, |lines[line]|)
  }

  /** `lines[i:j]` joined. */
  function JoinLines(lines: seq<string>, i: nat, j: nat): string
    requires j <= |lines|
  {
    if i <= j then Concat(lines[i..j]) else []
  }

  class SourceSegmentGetter {
    var lines: seq<string>

    constructor (source: string)
      ensures Concat(lines) == source && AreLines(lines)
    {
      var cut := SplitLinesNoFf(source);
      lines := cut;
    }

    /** `get_source_segment` of a node that has all four positions; lines count from zero here.
        None is the IndexError of a line that is not there. */
    method GetSourceSegment(lineno: nat, endLineno: nat, colOffset: nat, endColOffset: nat, padded: bool)
        returns (r: Option<string>)
      ensures r.None? <==> lineno >= |lines| || endLineno >= |lines|
      ensures r.Some? && lineno <= endLineno ==>
        var text := PySlice(Concat(lines), PositionOf(lines, lineno, colOffset),
            PositionOf(lines, endLineno, endColOffset));
        var padding := if padded && lineno < endLineno then PadWhitespace(PySlice(lines[lineno], 0, colOffset)) else [];
        r.value == padding + text
      ensures r.Some? && lineno > endLineno ==>
        var padding := if padded then PadWhitespace(PySlice(lines[lineno], 0, colOffset)) else [];
        r.value == padding + PySlice(lines[lineno], colOffset, |lines[lineno]|)
            + PySlice(lines[endLineno], 0, endColOffset)
    {
      if lineno >= |lines| || endLineno >= |lines| { return None; }
      if endLineno == lineno {
        OneLineSegment(lines, lineno, colOffset, endColOffset);
        EmptyPrefix(PySlice(lines[lineno], colOffset, endColOffset));
        return Some(PySlice(lines[lineno], colOffset, endColOffset));
      }
      var padding := if padded then PadWhitespace(PySlice(lines[lineno], 0, colOffset)) else [];
      var tail := PySlice(lines[lineno], colOffset, |lines[lineno]|);
      var first := padding + tail;
      var last := PySlice(lines[endLineno], 0, endColOffset);
      var middle := JoinLines(lines, lineno + 1, endLineno);
      if lineno < endLineno {
        SeveralLinesSegment(lines, lineno, endLineno, colOffset, endColOffset);
        Assoc(padding, tail, middle);
        Assoc(padding, tail + middle, last);
      } else {
        EmptySuffix(first);
      }
      r := Some(first + middle + last);
    }
  }

  lemma LineInSource(lines: seq<string>, i: nat)
    requires i < |lines|
    ensures LineStart(lines, i) + |lines[i]| <= |Concat(lines)|
    ensures Concat(lines)[LineStart(lines, i)..LineStart(lines, i) + |lines[i]|] == lines[i]
  {
    LineStartIs(lines, i);
    ConcatPart(lines, i);
  }

  lemma OneLineSegment(lines: seq<string>, i: nat, a: nat, b: nat)
    requires i < |lines|
    ensures PySlice(lines[i], a, b) == PySlice(Concat(lines), PositionOf(lines, i, a), PositionOf(lines, i, b))
  {
    LineInSource(lines, i);
    SliceInSource(Concat(lines), LineStart(lines, i), lines[i], a, b, PositionOf(lines, i, a), PositionOf(lines, i, b));
  }

  lemma SliceInSource(s: string, at: nat, line: string, a: nat, b: nat, p: nat, q: nat)
    requires at + |line| <= |s| && s[at..at + |line|] == line
    requires p == at + Min(a, |line|) && q == at + Min(b, |line|)
    ensures PySlice(line, a, b) == PySlice(s, p, q)
  {
    var lo, hi := Min(a, |line|), Min(b, |line|);
    if lo <= hi { SliceOfSlice(s, at, at + |line|, lo, hi); }
  }

  /** The lines between two lines are the text between the end of one and the start of the other. */
  lemma MiddleLines(lines: seq<string>, i: nat, j: nat)
    requires i <= j <= |lines|
    ensures LineStart(lines, i) <= LineStart(lines, j) <= |Concat(lines)|
    ensures JoinLines(lines, i, j) == PySlice(Concat(lines), LineStart(lines, i), LineStart(lines, j))
  {
    var a, b, c := lines[..i], lines[i..j], lines[j..];
    LineStartIs(lines, i);
    LineStartIs(lines, j);
    assert lines == lines[..j] + c && lines[..j] == a + b;
    ConcatAppend(lines[..j], c);
    ConcatAppend(a, b);
    MiddleOf(Concat(a), Concat(b), Concat(c));
  }

  lemma MiddleOf(a: string, b: string, c: string)
    ensures (a + b + c)[|a|..|a + b|] == b
  {
  }

  /** The end of the first line, the lines between, and the start of the last line are one flat slice. */
  lemma SeveralLinesSegment(lines: seq<string>, i: nat, j: nat, a: nat, b: nat)
    requires i < j < |lines|
    ensures PySlice(lines[i], a, |lines[i]|) + JoinLines(lines, i + 1, j) + PySlice(lines[j], 0, b)
      == PySlice(Concat(lines), PositionOf(lines, i, a), PositionOf(lines, j, b))
  {
    var s, p, q, r, t :=
      Concat(lines), PositionOf(lines, i, a), LineStart(lines, i + 1), LineStart(lines, j), PositionOf(lines, j, b);
    var first, middle, last := PySlice(lines[i], a, |lines[i]|), JoinLines(lines, i + 1, j), PySlice(lines[j], 0, b);
    EndOfLine(lines, i, a);
    StartOfLine(lines, j, b);
    MiddleLines(lines, i + 1, j);
    JoinThree(s, p, q, r, t, first, middle, last);
  }

  lemma EndOfLine(lines: seq<string>, i: nat, a: nat)
    requires i < |lines|
    ensures PositionOf(lines, i, a) <= LineStart(lines, i + 1)
    ensures PySlice(lines[i], a, |lines[i]|) == PySlice(Concat(lines), PositionOf(lines, i, a), LineStart(lines, i + 1))
  {
    OneLineSegment(lines, i, a, |lines[i]|);
  }

  lemma StartOfLine(lines: seq<string>, j: nat, b: nat)
    requires j < |lines|
    ensures LineStart(lines, j) <= PositionOf(lines, j, b) <= |Concat(lines)|
    ensures PySlice(lines[j], 0, b) == PySlice(Concat(lines), LineStart(lines, j), PositionOf(lines, j, b))
  {
    LineInSource(lines, j);
    OneLineSegment(lines, j, 0, b);
  }

  lemma JoinThree(s: string, p: nat, q: nat, r: nat, t: nat, first: string, middle: string, last: string)
    requires p <= q <= r <= t <= |s|
    requires first == PySlice(s, p, q) && middle == PySlice(s, q, r) && last == PySlice(s, r, t)
    ensures first + middle + last == PySlice(s, p, t)
  {
    JoinSlices(s, p, q, r);
    JoinSlices(s, p, r, t);
  }

  lemma JoinSlices(s: string, p: nat, q: nat, r: nat)
    requires p <= q <= r <= |s|
    ensures s[p..q] + s[q..r] == s[p..r]
  {
  }
}
