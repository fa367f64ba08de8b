/**
 What the event pattern and the cuts are, stated on the bytes alone: an event is a printed event,
 the events of a stream of printed events and other text are those that were printed, and every
 piece is what its type says.
 */
module ShellText {
  import opened Bytes
  import opened ShellEvents

  /** `ESC ]784;` */
  const MARKER: seq<Byte> := [27, 93, 55, 56, 52, 59]

  /** "ABPCEFGD" */
  const KINDS: seq<Byte> := [65, 66, 80, 67, 69, 70, 71, 68]

  /** An event as the shell prints it: `ESC ]784;`, the letter, perhaps `;` and an argument, BEL. */
  function EventText(kind: Byte, arg: Option<seq<Byte>>): seq<Byte> {
    MARKER + [kind] + (if arg.Some? then [SEMICOLON] + arg.value else []) + [BEL]
  }

  /** What the shell can print: an argument is one line without a bell. */
  predicate Printable(kind: Byte, arg: Option<seq<Byte>>) {
    kind in KINDS && (arg.Some? ==> BEL !in arg.value && LF !in arg.value)
  }

  lemma EventBytes(kind: Byte, arg: Option<seq<Byte>>)
    ensures var text := EventText(kind, arg);
      && MarkerAt(text, 0) && text[6] == kind && text[|text| - 1] == BEL
      && (arg.None? ==> |text| == 8)
      && (arg.Some? ==> |text| == 9 + |arg.value| && text[7] == SEMICOLON && text[8..|text| - 1] == arg.value)
  {
  }

  lemma MatchOfText(s: seq<Byte>, i: nat, e: nat, kind: Byte, arg: Option<seq<Byte>>)
    requires i <= e <= |s| && Printable(kind, arg) && s[i..e] == EventText(kind, arg)
    ensures MatchAt(s, i) == Some(Match(i, e, kind, arg))
  {
    var text := EventText(kind, arg);
    EventBytes(kind, arg);
    assert forall k :: 0 <= k < |text| ==> s[i + k] == text[k];
    assert s[i + 6] == kind && s[e - 1] == BEL;
    if arg.Some? {
      SliceOfSlice(s, i, e, 8, |text| - 1);
      assert forall k :: i + 8 <= k < e - 1 ==> s[k] == s[i + 8..e - 1][k - i - 8];
      FindByteIs(s, BEL, i + 8, e - 1);
    }
  }

  lemma TextOfMatch(s: seq<Byte>, i: nat)
    requires MatchAt(s, i).Some?
    ensures var m := MatchAt(s, i).value; Printable(m.kind, m.arg) && s[i..m.end] == EventText(m.kind, m.arg)
  {
    var m := MatchAt(s, i).value;
    EventBytes(m.kind, m.arg);
    var text := EventText(m.kind, m.arg);
    if m.arg.Some? {
      assert forall k :: i + 8 <= k < m.end - 1 ==> s[k] == m.arg.value[k - i - 8];
      assert forall k :: 8 <= k < |text| - 1 ==> text[k] == text[8..|text| - 1][k - 8];
    }
    assert forall k :: 0 <= k < |text| ==> s[i + k] == text[k];
  }

  /** The pattern: an event is found at `i` if and only if a printed event is there. */
  lemma MatchIff(s: seq<Byte>, m: Match)
    ensures MatchAt(s, m.start) == Some(m) <==>
      m.start <= m.end <= |s| && Printable(m.kind, m.arg) && s[m.start..m.end] == EventText(m.kind, m.arg)
  {
    if MatchAt(s, m.start) == Some(m) { TextOfMatch(s, m.start); }
    if m.start <= m.end <= |s| && Printable(m.kind, m.arg) && s[m.start..m.end] == EventText(m.kind, m.arg) {
      MatchOfText(s, m.start, m.end, m.kind, m.arg);
    }
  }

  // ---------------------------------------------------------------- streams of printed events

  /** Text without a start marker, and the event printed behind it. */
  datatype Output = Output(text: seq<Byte>, kind: Byte, arg: Option<seq<Byte>>)

  predicate Plain(text: seq<Byte>) {
    forall k :: 0 <= k < |text| ==> !MarkerAt(text, k)
  }

  /** What a shell writes that prints these events, with some text behind the last one. */
  function Stream(outputs: seq<Output>, tail: seq<Byte>): seq<Byte> {
    if outputs == [] then tail
    else outputs[0].text + EventText(outputs[0].kind, outputs[0].arg) + Stream(outputs[1..], tail)
  }

  /** A marker does not begin in plain text, not even with an event right behind it. */
  lemma NoMarkerInText(text: seq<Byte>, kind: Byte, arg: Option<seq<Byte>>, rest: seq<Byte>, k: nat)
    requires Plain(text) && k < |text|
    ensures !MarkerAt(text + EventText(kind, arg) + rest, k)
  {
    var s := text + EventText(kind, arg) + rest;
    EventBytes(kind, arg);
    assert s[|text|] == EventText(kind, arg)[0] == 27;
    assert k + 6 <= |text| && MarkerAt(s, k) ==> MarkerAt(text, k);
  }

  /** The first event behind plain text. */
  lemma FirstOfStream(text: seq<Byte>, kind: Byte, arg: Option<seq<Byte>>, rest: seq<Byte>)
    requires Plain(text) && Printable(kind, arg)
    ensures var s, e := text + EventText(kind, arg) + rest, |text| + |EventText(kind, arg)|;
      Search(s, 0) == Some(Match(|text|, e, kind, arg)) && s[..|text|] == text && s[e..] == rest
  {
    var s, e := text + EventText(kind, arg) + rest, |text| + |EventText(kind, arg)|;
    assert s[|text|..e] == EventText(kind, arg);
    MatchOfText(s, |text|, e, kind, arg);
    forall k: nat | k < |text| ensures MatchAt(s, k).None? { NoMarkerInText(text, kind, arg, rest, k); }
    SearchIs(s, 0, |text|);
  }

  lemma NoEventInPlain(text: seq<Byte>)
    requires Plain(text)
    ensures EventsIn(text) == []
  {
    assert forall k: nat :: MatchAt(text, k).Some? ==> MarkerAt(text, k);
  }

  lemma EventsUnfold(s: seq<Byte>, m: Match)
    requires Search(s, 0) == Some(m)
    ensures EventsIn(s) == [KeyOf(m)] + EventsIn(s[m.end..])
  {
  }

  /** What is found of a printed event; the argument of PROMPT_END is not part of the pattern. */
  function KeyOfOutput(o: Output): CommandKey {
    CommandKey(o.kind, if o.kind == PROMPT_END then None else o.arg)
  }

  function Keys(outputs: seq<Output>): seq<CommandKey> {
    if outputs == [] then [] else [KeyOfOutput(outputs[0])] + Keys(outputs[1..])
  }

  predicate WellPrinted(o: Output) {
    Plain(o.text) && Printable(o.kind, o.arg)
  }

  lemma HeadOfStream(o: Output, rest: seq<Byte>)
    requires WellPrinted(o)
    ensures EventsIn(o.text + EventText(o.kind, o.arg) + rest) == [KeyOfOutput(o)] + EventsIn(rest)
  {
    FirstOfStream(o.text, o.kind, o.arg, rest);
    var s := o.text + EventText(o.kind, o.arg) + rest;
    EventsUnfold(s, Search(s, 0).value);
  }

  /** The events of a stream are exactly the events that were printed, in order, each with its argument. */
  lemma {:induction false} PrintedEventsAreFound(outputs: seq<Output>, tail: seq<Byte>)
    requires (forall i :: 0 <= i < |outputs| ==> WellPrinted(outputs[i])) && Plain(tail)
    ensures EventsIn(Stream(outputs, tail)) == Keys(outputs)
    decreases |outputs|
  {
    if outputs == [] {
      NoEventInPlain(tail);
    } else {
      HeadOfStream(outputs[0], Stream(outputs[1..], tail));
      PrintedEventsAreFound(outputs[1..], tail);
    }
  }

  // ---------------------------------------------------------------- what the pieces are

  /** No bell and no start marker. */
  predicate Calm(s: seq<Byte>) {
    BEL !in s && Plain(s)
  }

  /** `data` is cut off as a piece of the type, and `left` is what remains of the bytes looked at. */
  ghost predicate IsPiece(data: seq<Byte>, ty: LineEventType, left: seq<Byte>) {
    && data != []
    && match ty
       case VscodeEventEnd =>
         // the first event, behind a marker that is in front of every bell
         && Search(data, 0).Some? && Search(data, 0).value.end == |data|
         && exists k: nat :: MarkerAt(data, k) && BEL !in data[..k]
       case VscodeEventIncompleteEnd =>
         // up to the first bell when there is no marker, up to the first marker when there is a bell in front of it
         || (data[|data| - 1] == BEL && BEL !in data[..|data| - 1] && Plain(data + left))
         || (BEL in data && MarkerAt(left, 0) && NoMarkerIn(data, left))
       case UnknownIncompleteEnd =>
         // up to the first marker, without a bell anywhere
         BEL !in data + left && MarkerAt(left, 0) && NoMarkerIn(data, left)
       case LineEnd =>
         // one line
         Calm(data + left) && data[|data| - 1] == LF && LF !in data[..|data| - 1]
       case RbufOverflow =>
         // up to the last carriage return, which is far behind
         && Calm(data + left) && LF !in data + left
         && data[|data| - 1] == CR && CR !in left && |data| > RBUF_MAX_LENGTH
  }

  /** No marker begins in `data`, also if it would reach into what is left. */
  predicate NoMarkerIn(data: seq<Byte>, left: seq<Byte>) {
    forall k :: 0 <= k < |data| ==> !MarkerAt(data + left, k)
  }

  lemma MarkersOfHalves(buf: seq<Byte>, at: nat)
    requires at <= |buf|
    ensures buf[..at] + buf[at..] == buf
    ensures MarkerAt(buf[at..], 0) <==> MarkerAt(buf, at)
    ensures BEL in buf <==> BEL in buf[..at] || BEL in buf[at..]
  {
    assert buf[..at] + buf[at..] == buf;
  }

  lemma FirstMarkerIs(buf: seq<Byte>, at: nat)
    requires MarkerAt(buf, at) && forall k :: 0 <= k < at ==> !MarkerAt(buf, k)
    ensures FindMarker(buf, 0) == at
  {
    FindMarkerLeast(buf, 0);
  }

  lemma NoFirstMarker(buf: seq<Byte>)
    requires Plain(buf)
    ensures FindMarker(buf, 0) == -1
  {
  }

  lemma {:induction false} LastByteIs(buf: seq<Byte>, at: nat, b: Byte)
    requires at < |buf| && buf[at] == b && b !in buf[at + 1..]
    ensures RFindByte(buf, b) == at
    decreases |buf|
  {
    if at < |buf| - 1 {
      var front := buf[..|buf| - 1];
      assert buf[at + 1..][|buf| - 2 - at] == buf[|buf| - 1];
      assert front[at + 1..] == buf[at + 1..][..|buf| - 2 - at];
      LastByteIs(front, at, b);
    }
  }

  lemma {:induction false} NothingBehindLast(buf: seq<Byte>, b: Byte)
    ensures RFindByte(buf, b) != -1 ==> b !in buf[RFindByte(buf, b) + 1..]
    ensures RFindByte(buf, b) == -1 ==> b !in buf
    decreases |buf|
  {
    if buf != [] && buf[|buf| - 1] != b {
      NothingBehindLast(buf[..|buf| - 1], b);
      assert forall k :: 0 <= k < |buf| && buf[k] == b ==> buf[..|buf| - 1][k] == b;
    }
  }

  lemma EventCutIsPiece(buf: seq<Byte>)
    requires FindCut(buf).Cut? && FindCut(buf).ty.VscodeEventEnd?
    ensures var at := FindCut(buf).at; IsPiece(buf[..at], VscodeEventEnd, buf[at..])
  {
    var at, marker := FindCut(buf).at, FindMarker(buf, 0);
    EventPiece(buf);
    FindMarkerLeast(buf, 0);
    assert marker + 6 <= at;
    assert MarkerAt(buf[..at], marker);
    assert buf[..at][..marker] == buf[..marker];
  }

  lemma LineCutIsPiece(buf: seq<Byte>)
    requires FindCut(buf).Cut? && FindCut(buf).ty.LineEnd?
    ensures var at := FindCut(buf).at; IsPiece(buf[..at], LineEnd, buf[at..])
  {
    MarkersOfHalves(buf, FindCut(buf).at);
    FindMarkerLeast(buf, 0);
  }

  lemma OverflowCutIsPiece(buf: seq<Byte>)
    requires FindCut(buf).Cut? && FindCut(buf).ty.RbufOverflow?
    ensures var at := FindCut(buf).at; IsPiece(buf[..at], RbufOverflow, buf[at..])
  {
    NothingFound(buf);
    NothingBehindLast(buf, CR);
    OverflowIsPiece(buf, FindCut(buf).at);
  }

  lemma NothingFound(buf: seq<Byte>)
    requires FindMarker(buf, 0) == -1 && FindByte(buf, BEL, 0) == -1
    ensures Calm(buf) && (FindByte(buf, LF, 0) == -1 ==> LF !in buf)
  {
    FindMarkerLeast(buf, 0);
  }

  lemma OverflowIsPiece(buf: seq<Byte>, at: nat)
    requires RBUF_MAX_LENGTH < at <= |buf| && Calm(buf) && LF !in buf && buf[at - 1] == CR && CR !in buf[at..]
    ensures IsPiece(buf[..at], RbufOverflow, buf[at..])
  {
    assert buf[..at] + buf[at..] == buf;
  }

  lemma IncompleteCutIsPiece(buf: seq<Byte>)
    requires FindCut(buf).Cut? && (FindCut(buf).ty.VscodeEventIncompleteEnd? || FindCut(buf).ty.UnknownIncompleteEnd?)
    ensures var at := FindCut(buf).at; IsPiece(buf[..at], FindCut(buf).ty, buf[at..])
  {
    MarkersOfHalves(buf, FindCut(buf).at);
    FindMarkerLeast(buf, 0);
  }

  lemma PieceIsEventCut(data: seq<Byte>, left: seq<Byte>)
    requires IsPiece(data, VscodeEventEnd, left)
    ensures FindCut(data + left) == Cut(|data|, VscodeEventEnd)
  {
    var buf := data + left;
    var k: nat :| MarkerAt(data, k) && BEL !in data[..k];
    SearchInPrefix(data, left);
    EventHasMarkerAndBell(buf);
    FindMarkerLeast(buf, 0);
    assert MarkerAt(buf, k);
    assert forall j :: 0 <= j < k ==> buf[j] == data[..k][j];
  }

  lemma PieceIsIncompleteCut(data: seq<Byte>, left: seq<Byte>)
    requires IsPiece(data, VscodeEventIncompleteEnd, left)
    ensures FindCut(data + left) == Cut(|data|, VscodeEventIncompleteEnd)
  {
    var buf := data + left;
    if Plain(buf) && data[|data| - 1] == BEL && BEL !in data[..|data| - 1] {
      NoFirstMarker(buf);
      assert forall j :: 0 <= j < |data| - 1 ==> buf[j] == data[..|data| - 1][j];
      FindByteIs(buf, BEL, 0, |data| - 1);
    } else {
      assert MarkerAt(buf, |data|);
      FirstMarkerIs(buf, |data|);
      var j :| 0 <= j < |data| && data[j] == BEL;
      assert buf[j] == BEL;
    }
  }

  lemma PieceIsCut(data: seq<Byte>, ty: LineEventType, left: seq<Byte>)
    requires IsPiece(data, ty, left)
    ensures FindCut(data + left) == Cut(|data|, ty)
  {
    var buf := data + left;
    FindMarkerLeast(buf, 0);
    match ty
    case VscodeEventEnd =>
      PieceIsEventCut(data, left);
    case VscodeEventIncompleteEnd =>
      PieceIsIncompleteCut(data, left);
    case UnknownIncompleteEnd =>
      FirstMarkerIs(buf, |data|);
    case LineEnd =>
      FindByteIs(buf, LF, 0, |data| - 1);
    case RbufOverflow =>
      LastByteIs(buf, |data| - 1, CR);
  }

  /** Where the reader cuts and how it calls the piece, for all bytes that it can have read. */
  lemma CutIff(buf: seq<Byte>, at: nat, ty: LineEventType)
    ensures FindCut(buf) == Cut(at, ty) <==> at <= |buf| && IsPiece(buf[..at], ty, buf[at..])
  {
    if FindCut(buf) == Cut(at, ty) {
      match ty
      case VscodeEventEnd => EventCutIsPiece(buf);
      case VscodeEventIncompleteEnd | UnknownIncompleteEnd => IncompleteCutIsPiece(buf);
      case LineEnd => LineCutIsPiece(buf);
      case RbufOverflow => OverflowCutIsPiece(buf);
    }
    if at <= |buf| && IsPiece(buf[..at], ty, buf[at..]) {
      MarkersOfHalves(buf, at);
      PieceIsCut(buf[..at], ty, buf[at..]);
    }
  }

  // ---------------------------------------------------------------- what one read gives

  /** Fewer than `n` chunks hold no piece. */
  predicate WaitsBelow(acc: seq<Byte>, chunks: seq<seq<Byte>>, n: nat)
    requires n <= |chunks|
  {
    forall j :: 1 <= j < n ==> FindCut(acc + Concat(chunks[..j])).Wait?
  }

  /** The first `n` chunks, and no fewer, hold a piece: it is `data`, and `rest` stays buffered. */
  ghost predicate CutAfter(acc: seq<Byte>, chunks: seq<seq<Byte>>, n: nat, data: seq<Byte>, ty: LineEventType,
      rest: seq<seq<Byte>>)
    requires 1 <= n <= |chunks|
  {
    var buf := acc + Concat(chunks[..n]);
    && WaitsBelow(acc, chunks, n)
    && data <= buf && IsPiece(data, ty, buf[|data|..])
    && rest == (if data == buf then [] else [buf[|data|..]]) + chunks[n..]
  }

  /** One read of the chunks gives the piece `data` and leaves `rest`. */
  ghost predicate PieceOf(acc: seq<Byte>, chunks: seq<seq<Byte>>, data: seq<Byte>, ty: LineEventType,
      rest: seq<seq<Byte>>) {
    exists n :: 1 <= n <= |chunks| && CutAfter(acc, chunks, n, data, ty, rest)
  }

  lemma OneChunk(acc: seq<Byte>, chunks: seq<seq<Byte>>, j: nat)
    requires 1 <= j <= |chunks|
    ensures acc + Concat(chunks[..j]) == acc + chunks[0] + Concat(chunks[1..][..j - 1])
    ensures chunks[j..] == chunks[1..][j - 1..]
  {
    assert chunks[..j] == [chunks[0]] + chunks[1..][..j - 1];
    assert chunks[..j][1..] == chunks[1..][..j - 1];
    Assoc(acc, chunks[0], Concat(chunks[1..][..j - 1]));
  }

  lemma WaitsNext(acc: seq<Byte>, chunks: seq<seq<Byte>>, n: nat)
    requires n < |chunks| && FindCut(acc + chunks[0]).Wait? && WaitsBelow(acc + chunks[0], chunks[1..], n)
    ensures WaitsBelow(acc, chunks, n + 1)
  {
    forall j | 1 <= j < n + 1 ensures FindCut(acc + Concat(chunks[..j])).Wait? {
      OneChunk(acc, chunks, j);
      EmptySuffix(acc + chunks[0]);
    }
  }

  lemma CutAfterNext(acc: seq<Byte>, chunks: seq<seq<Byte>>, n: nat, data: seq<Byte>, ty: LineEventType,
      rest: seq<seq<Byte>>)
    requires 1 <= n < |chunks| && FindCut(acc + chunks[0]).Wait?
    requires CutAfter(acc + chunks[0], chunks[1..], n, data, ty, rest)
    ensures CutAfter(acc, chunks, n + 1, data, ty, rest)
  {
    OneChunk(acc, chunks, n + 1);
    WaitsNext(acc, chunks, n);
  }

  /** What a read hands out is a piece in the sense above, and it is handed out as soon as there is one. */
  lemma {:induction false} ReadGivesPiece(acc: seq<Byte>, chunks: seq<seq<Byte>>)
    ensures var r := ReadFrom(acc, chunks); r.Piece? ==> PieceOf(acc, chunks, r.data, r.ty, r.rest)
    decreases |chunks|
  {
    var r := ReadFrom(acc, chunks);
    if r.Piece? {
      var buf := acc + chunks[0];
      if FindCut(buf).Wait? {
        ReadGivesPiece(buf, chunks[1..]);
        var n :| 1 <= n <= |chunks[1..]| && CutAfter(buf, chunks[1..], n, r.data, r.ty, r.rest);
        CutAfterNext(acc, chunks, n, r.data, r.ty, r.rest);
      } else {
        OneChunk(acc, chunks, 1);
        EmptySuffix(buf);
        CutIff(buf, FindCut(buf).at, r.ty);
        assert CutAfter(acc, chunks, 1, r.data, r.ty, r.rest);
      }
    }
  }

  /** And when it waits, none of the bytes looked at held a piece. */
  lemma {:induction false} WaitingHasNoPiece(acc: seq<Byte>, chunks: seq<seq<Byte>>)
    ensures ReadFrom(acc, chunks).Suspended? <==>
      forall j :: 1 <= j <= |chunks| ==> FindCut(acc + Concat(chunks[..j])).Wait?
    decreases |chunks|
  {
    if chunks != [] {
      var buf := acc + chunks[0];
      OneChunk(acc, chunks, 1);
      EmptySuffix(buf);
      if FindCut(buf).Wait? {
        WaitingHasNoPiece(buf, chunks[1..]);
        forall j | 2 <= j <= |chunks|
          ensures FindCut(acc + Concat(chunks[..j])).Wait? <==> FindCut(buf + Concat(chunks[1..][..j - 1])).Wait?
        {
          OneChunk(acc, chunks, j);
        }
        assert forall j :: 1 <= j <= |chunks[1..]| && FindCut(buf + Concat(chunks[1..][..j])).Cut? ==>
          FindCut(acc + Concat(chunks[..j + 1])).Cut?;
      }
    }
  }
}
