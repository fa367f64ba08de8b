/**
 The shell-event tokenizer of the SSH client: finding `ESC ]784;X[;arg] BEL` events,
 bells, newlines and overlong carriage-return runs in a byte stream that arrives in
 arbitrary network chunks.
 */
module ShellEvents {
  import opened Bytes

  // ---------------------------------------------------------------- the event pattern

  const BEL: Byte := 7
  const LF: Byte := 10
  const CR: Byte := 13
  const SEMICOLON: Byte := 59
  const PROMPT_END: Byte := 66
  const RBUF_MAX_LENGTH: nat := 4000

  /** The command letters A, B, C, D, E, F, G and P. */
  predicate IsKind(b: Byte) {
    65 <= b <= 71 || b == 80
  }

  /** `ESC ]784;` begins at `i`. */
  predicate MarkerAt(s: seq<Byte>, i: int) {
    && 0 <= i && i + 6 <= |s|
    && s[i] == 27 && s[i + 1] == 93 && s[i + 2] == 55 && s[i + 3] == 56 && s[i + 4] == 52 && s[i + 5] == 59
  }

  /** The least index at or after `from` that holds `b`, or -1 (`bytes.find`). */
  function FindByte(s: seq<Byte>, b: Byte, from: nat): (r: int)
    ensures r == -1 || (from <= r < |s| && s[r] == b)
    ensures forall k :: from <= k < (if r == -1 then |s| else r) ==> s[k] != b
    decreases |s| - from
  {
    if from >= |s| then -1 else if s[from] == b then from else FindByte(s, b, from + 1)
  }

  /** The greatest index that holds `b`, or -1 (`bytes.rfind`). */
  function RFindByte(s: seq<Byte>, b: Byte): (r: int)
    ensures r == -1 || (0 <= r < |s| && s[r] == b)
  {
    if s == [] then -1 else if s[|s| - 1] == b then |s| - 1 else RFindByte(s[..|s| - 1], b)
  }

  /** The least index at or after `from` where the start marker begins, or -1. */
  function FindMarker(s: seq<Byte>, from: nat): (r: int)
    ensures r == -1 || (from <= r && MarkerAt(s, r))
    decreases |s| - from
  {
    if from >= |s| then -1 else if MarkerAt(s, from) then from else FindMarker(s, from + 1)
  }

  datatype Match = Match(start: nat, end: nat, kind: Byte, arg: Option<seq<Byte>>)

  /** The event pattern anchored at `i`: marker, letter, then BEL, or `;` and newline-free
      bytes up to the first BEL. */
  function MatchAt(s: seq<Byte>, i: nat): (r: Option<Match>)
    ensures r.Some? ==>
      && MarkerAt(s, i) && r.value.start == i && i + 8 <= r.value.end <= |s|
      && r.value.end - 1 == FindByte(s, BEL, i + 7)
  {
    if MarkerAt(s, i) && i + 8 <= |s| && IsKind(s[i + 6]) then
      if s[i + 7] == BEL then Some(Match(i, i + 8, s[i + 6], None))
      else if s[i + 7] == SEMICOLON then
        var bel := FindByte(s, BEL, i + 8);
        if bel != -1 && LF !in s[i + 8..bel] then
          assert forall k :: i + 7 <= k < bel ==> s[k] != BEL;
          Some(Match(i, bel + 1, s[i + 6], Some(s[i + 8..bel])))
        else None
      else None
    else None
  }

  /** The leftmost match at or after `from` (`re.search`). */
  function Search(s: seq<Byte>, from: nat): (r: Option<Match>)
    ensures r.Some? ==> from <= r.value.start && MatchAt(s, r.value.start) == r
    decreases |s| - from
  {
    if from >= |s| then None
    else if MatchAt(s, from).Some? then MatchAt(s, from)
    else Search(s, from + 1)
  }

  datatype CommandKey = CommandKey(kind: Byte, arg: Option<seq<Byte>>)

  /** A match seen as a command event; the argument of PROMPT_END is not part of the pattern. */
  function KeyOf(m: Match): CommandKey {
    CommandKey(m.kind, if m.kind == PROMPT_END then None else m.arg)
  }

  /** The reference: the command events of a flat stream, leftmost and non-overlapping. */
  function EventsIn(s: seq<Byte>): seq<CommandKey>
    decreases |s|
  {
    match Search(s, 0)
    case None => []
    case Some(m) => [KeyOf(m)] + EventsIn(s[m.end..])
  }

  // ---------------------------------------------------------------- facts about the pattern

  lemma FindMarkerLeast(s: seq<Byte>, from: nat)
    ensures var r := FindMarker(s, from);
      forall k :: from <= k && (r == -1 || k < r) ==> !MarkerAt(s, k)
    decreases |s| - from
  {
    if from < |s| && !MarkerAt(s, from) { FindMarkerLeast(s, from + 1); }
  }

  lemma SearchLeast(s: seq<Byte>, from: nat)
    ensures var r := Search(s, from);
      forall k :: from <= k && (r.Some? ==> k < r.value.start) ==> MatchAt(s, k).None?
    decreases |s| - from
  {
    if from < |s| && MatchAt(s, from).None? { SearchLeast(s, from + 1); }
  }

  lemma FindByteIs(s: seq<Byte>, b: Byte, from: nat, at: int)
    requires from <= at < |s| && s[at] == b && forall k :: from <= k < at ==> s[k] != b
    ensures FindByte(s, b, from) == at
  {
  }

  /** A match that lies inside a prefix is found there too, and the other way round. */
  lemma MatchInPrefix(s: seq<Byte>, t: seq<Byte>, i: nat)
    ensures MatchAt(s, i).Some? ==> MatchAt(s + t, i) == MatchAt(s, i)
    ensures MatchAt(s + t, i).Some? && MatchAt(s + t, i).value.end <= |s| ==> MatchAt(s, i) == MatchAt(s + t, i)
  {
    var u := s + t;
    if i + 8 <= |s| {
      var x, y := FindByte(s, BEL, i + 8), FindByte(u, BEL, i + 8);
      if x != -1 {
        FindByteIs(u, BEL, i + 8, x);
        assert u[i + 8..x] == s[i + 8..x];
      } else {
        assert forall k :: i + 8 <= k < |s| ==> u[k] == s[k];
      }
    }
  }

  lemma MatchInSuffix(s: seq<Byte>, c: nat, i: nat)
    requires c <= |s|
    ensures MatchAt(s[c..], i).None? <==> MatchAt(s, c + i).None?
    ensures MatchAt(s[c..], i).Some? ==>
      var m, n := MatchAt(s[c..], i).value, MatchAt(s, c + i).value;
      m.end + c == n.end && m.start + c == n.start && m.kind == n.kind && m.arg == n.arg
  {
    var u := s[c..];
    if i + 8 <= |u| {
      var x, y := FindByte(u, BEL, i + 8), FindByte(s, BEL, c + i + 8);
      if x != -1 {
        forall k | c + i + 8 <= k < c + x ensures s[k] != BEL { assert s[k] == u[k - c]; }
        FindByteIs(s, BEL, c + i + 8, c + x);
        SliceOfSuffix(s, c, i + 8, x);
      } else {
        forall k | c + i + 8 <= k < |s| ensures s[k] != BEL { assert s[k] == u[k - c]; }
      }
    }
  }

  /** Matches that begin later never end earlier. */
  lemma MatchEndsMonotone(s: seq<Byte>, i: nat, j: nat)
    requires i <= j && MatchAt(s, i).Some? && MatchAt(s, j).Some?
    ensures MatchAt(s, i).value.end <= MatchAt(s, j).value.end
  {
    var e := MatchAt(s, j).value.end;
    assert s[e - 1] == BEL;
  }

  lemma SearchIs(s: seq<Byte>, from: nat, i: nat)
    requires from <= i && MatchAt(s, i).Some?
    requires forall k :: from <= k < i ==> MatchAt(s, k).None?
    ensures Search(s, from) == MatchAt(s, i)
  {
    SearchLeast(s, from);
  }

  /** The first match, if there is one, begins at `c` or later. */
  predicate NoMatchBefore(s: seq<Byte>, c: nat) {
    Search(s, 0).Some? ==> c <= Search(s, 0).value.start
  }

  lemma NothingInSuffix(s: seq<Byte>, c: nat)
    requires c <= |s| && Search(s, 0).None?
    ensures Search(s[c..], 0).None?
  {
    SearchLeast(s, 0);
    if Search(s[c..], 0).Some? { MatchInSuffix(s, c, Search(s[c..], 0).value.start); }
  }

  lemma FirstMatchInSuffix(s: seq<Byte>, c: nat, i: nat)
    requires c + i <= |s| && MatchAt(s, c + i).Some?
    requires forall k :: 0 <= k < c + i ==> MatchAt(s, k).None?
    ensures Search(s[c..], 0) == MatchAt(s[c..], i)
  {
    forall k: nat | k < i ensures MatchAt(s[c..], k).None? { MatchInSuffix(s, c, k); }
    MatchInSuffix(s, c, i);
    SearchIs(s[c..], 0, i);
  }

  lemma SearchInSuffix(s: seq<Byte>, c: nat)
    requires c <= |s| && NoMatchBefore(s, c)
    ensures Search(s[c..], 0).None? <==> Search(s, 0).None?
    ensures Search(s, 0).Some? ==>
      var m, n := Search(s[c..], 0).value, Search(s, 0).value;
      m.end + c == n.end && KeyOf(m) == KeyOf(n)
  {
    if Search(s, 0).None? {
      NothingInSuffix(s, c);
    } else {
      var i := Search(s, 0).value.start - c;
      SearchLeast(s, 0);
      FirstMatchInSuffix(s, c, i);
      MatchInSuffix(s, c, i);
    }
  }

  lemma SameSearchSameEvents(s: seq<Byte>, u: seq<Byte>)
    requires Search(u, 0).None? <==> Search(s, 0).None?
    requires Search(s, 0).Some? ==>
      var m, n := Search(u, 0).value, Search(s, 0).value;
      KeyOf(m) == KeyOf(n) && u[m.end..] == s[n.end..]
    ensures EventsIn(u) == EventsIn(s)
  {
  }

  /** Bytes in front of which no match begins do not change the events. */
  lemma SkipUnmatched(s: seq<Byte>, c: nat)
    requires c <= |s| && NoMatchBefore(s, c)
    ensures EventsIn(s[c..]) == EventsIn(s)
  {
    SearchInSuffix(s, c);
    if Search(s, 0).Some? { DropDrop(s, c, Search(s[c..], 0).value.end); }
    SameSearchSameEvents(s, s[c..]);
  }

  // ---------------------------------------------------------------- where a buffer is cut

  datatype LineEventType =
    | VscodeEventEnd | VscodeEventIncompleteEnd | UnknownIncompleteEnd | LineEnd | RbufOverflow

  datatype CutResult = Wait | Cut(at: nat, ty: LineEventType)

  /** The decision taken on the accumulated bytes each time a chunk has been added. */
  function FindCut(buf: seq<Byte>): (r: CutResult)
    ensures r.Cut? ==> 0 < r.at <= |buf|
  {
    var marker := FindMarker(buf, 0);
    var bel := FindByte(buf, BEL, 0);
    if marker != -1 && bel != -1 then
      if marker < bel then
        match Search(buf, 0)
        case None => Wait
        case Some(m) => Cut(m.end, VscodeEventEnd)
      else Cut(marker, VscodeEventIncompleteEnd)
    else if bel != -1 then Cut(bel + 1, VscodeEventIncompleteEnd)
    else if marker != -1 then
      if marker != 0 then Cut(marker, UnknownIncompleteEnd) else Wait
    else
      var lf, cr := FindByte(buf, LF, 0), RFindByte(buf, CR);
      if lf != -1 then Cut(lf + 1, LineEnd)
      else if cr >= RBUF_MAX_LENGTH then Cut(cr + 1, RbufOverflow)
      else Wait
  }

  /** A marker that is not complete in `buf` begins after every bell, newline and
      carriage return of `buf`. */
  lemma NoMarkerBefore(buf: seq<Byte>, t: seq<Byte>, c: nat, k: nat)
    requires FindMarker(buf, 0) == -1 && k < c <= |buf| && buf[c - 1] in {BEL, LF, CR}
    ensures !MarkerAt(buf + t, k)
  {
    FindMarkerLeast(buf, 0);
    assert (buf + t)[c - 1] == buf[c - 1];
    assert k + 6 <= |buf| && MarkerAt(buf + t, k) ==> MarkerAt(buf, k);
  }

  /** A cut that is not an event's end has no match beginning before it, whatever follows. */
  lemma PlainCutSkipsNoMatch(buf: seq<Byte>, t: seq<Byte>, k: nat)
    requires FindCut(buf).Cut? && !FindCut(buf).ty.VscodeEventEnd? && k < FindCut(buf).at
    ensures MatchAt(buf + t, k).None?
  {
    var c, marker := FindCut(buf).at, FindMarker(buf, 0);
    FindMarkerLeast(buf, 0);
    if marker != -1 {
      assert c == marker;
      assert MarkerAt(buf + t, k) ==> MarkerAt(buf, k);
    } else {
      NoMarkerBefore(buf, t, c, k);
    }
  }

  /** The first match of a buffer is the first match of everything that begins with it. */
  lemma SearchInPrefix(buf: seq<Byte>, t: seq<Byte>)
    requires Search(buf, 0).Some?
    ensures Search(buf + t, 0) == Search(buf, 0)
  {
    var m := Search(buf, 0).value;
    SearchLeast(buf, 0);
    MatchInPrefix(buf, t, m.start);
    forall k | 0 <= k < m.start ensures MatchAt(buf + t, k).None? {
      MatchInPrefix(buf, t, k);
      if MatchAt(buf + t, k).Some? { MatchEndsMonotone(buf + t, k, m.start); }
    }
    SearchIs(buf + t, 0, m.start);
  }

  /** A piece cut at an event's end holds that event and no other. */
  lemma EventPiece(buf: seq<Byte>)
    requires Search(buf, 0).Some?
    ensures var m := Search(buf, 0).value;
      Search(buf[..m.end], 0) == Some(m) && EventsIn(buf[..m.end]) == [KeyOf(m)]
  {
    var m := Search(buf, 0).value;
    var piece, rest := buf[..m.end], buf[m.end..];
    assert buf == piece + rest;
    SearchLeast(buf, 0);
    MatchInPrefix(piece, rest, m.start);
    forall k | 0 <= k < m.start ensures MatchAt(piece, k).None? { MatchInPrefix(piece, rest, k); }
    SearchIs(piece, 0, m.start);
    assert piece[m.end..] == [];
    assert EventsIn(piece) == [KeyOf(m)] + EventsIn([]);
  }

  /** The heart of the tokenizer: a cut splits the events of the stream at the cut,
      whatever bytes are still to come. */
  lemma CutSplitsEvents(buf: seq<Byte>, t: seq<Byte>)
    requires FindCut(buf).Cut?
    ensures var c := FindCut(buf).at;
      EventsIn(buf + t) == EventsIn(buf[..c]) + EventsIn(buf[c..] + t)
  {
    var c := FindCut(buf).at;
    assert (buf + t)[c..] == buf[c..] + t;
    if FindCut(buf).ty.VscodeEventEnd? {
      SearchInPrefix(buf, t);
      EventPiece(buf);
    } else {
      forall k: nat | k < c ensures MatchAt(buf + t, k).None? { PlainCutSkipsNoMatch(buf, t, k); }
      SkipUnmatched(buf + t, c);
      PlainPieceHasNoEvent(buf);
    }
  }

  lemma PlainPieceHasNoEvent(buf: seq<Byte>)
    requires FindCut(buf).Cut? && !FindCut(buf).ty.VscodeEventEnd?
    ensures EventsIn(buf[..FindCut(buf).at]) == []
  {
    var c := FindCut(buf).at;
    forall k: nat | k < c ensures MatchAt(buf[..c], k).None? {
      PlainCutSkipsNoMatch(buf, [], k);
      assert buf + [] == buf == buf[..c] + buf[c..];
      MatchInPrefix(buf[..c], buf[c..], k);
    }
  }

  /** A buffer with an event has a marker and a later bell. */
  lemma EventHasMarkerAndBell(buf: seq<Byte>)
    ensures Search(buf, 0).Some? ==> FindMarker(buf, 0) != -1 && FindByte(buf, BEL, 0) != -1
  {
    FindMarkerLeast(buf, 0);
    if Search(buf, 0).Some? {
      var m := Search(buf, 0).value;
      assert buf[m.end - 1] == BEL;
    }
  }

  /** A buffer that is not cut holds no complete event. */
  lemma WaitHasNoEvent(buf: seq<Byte>)
    requires FindCut(buf).Wait?
    ensures EventsIn(buf) == []
  {
    EventHasMarkerAndBell(buf);
  }

  // ---------------------------------------------------------------- one read, and runs of reads

  datatype ReadOutcome = Suspended | Piece(data: seq<Byte>, ty: LineEventType, rest: seq<seq<Byte>>)

  /** One read: chunks are added to `acc` one at a time until a cut is found. */
  function ReadFrom(acc: seq<Byte>, chunks: seq<seq<Byte>>): ReadOutcome
    decreases |chunks|
  {
    if chunks == [] then Suspended
    else
      var buf := acc + chunks[0];
      match FindCut(buf)
      case Wait => ReadFrom(buf, chunks[1..])
      case Cut(at, ty) =>
        Piece(buf[..at], ty, (if at == |buf| then [] else [buf[at..]]) + chunks[1..])
  }

  /** A piece is not empty; it holds one event, at its very end, or none, as its type says. */
  predicate WellCut(data: seq<Byte>, ty: LineEventType) {
    && data != []
    && if ty.VscodeEventEnd? then
         Search(data, 0).Some? && Search(data, 0).value.end == |data| && |EventsIn(data)| == 1
       else EventsIn(data) == []
  }

  /** What one read does to the events, to the bytes, and what the piece looks like. */
  lemma {:induction false} ReadSplitsEvents(acc: seq<Byte>, chunks: seq<seq<Byte>>, t: seq<Byte>)
    requires FindCut(acc).Wait?
    ensures ReadFrom(acc, chunks).Suspended? ==> EventsIn(acc + Concat(chunks)) == []
    ensures ReadFrom(acc, chunks).Piece? ==>
      var r := ReadFrom(acc, chunks);
      && r.data + Concat(r.rest) == acc + Concat(chunks)
      && EventsIn(acc + Concat(chunks) + t) == EventsIn(r.data) + EventsIn(Concat(r.rest) + t)
      && WellCut(r.data, r.ty)
    decreases |chunks|
  {
    if chunks == [] {
      assert acc + Concat(chunks) == acc;
      WaitHasNoEvent(acc);
    } else {
      var buf, later := acc + chunks[0], Concat(chunks[1..]);
      Assoc(acc, chunks[0], later);
      match FindCut(buf)
      case Wait =>
        ReadSplitsEvents(buf, chunks[1..], t);
      case Cut(at, ty) =>
        CutSplitsRest(buf, later, t);
        PieceRest(buf, at, chunks[1..]);
    }
  }

  lemma CutSplitsRest(buf: seq<Byte>, later: seq<Byte>, t: seq<Byte>)
    requires FindCut(buf).Cut?
    ensures var c := FindCut(buf).at;
      EventsIn(buf + later + t) == EventsIn(buf[..c]) + EventsIn(buf[c..] + later + t)
    ensures WellCut(buf[..FindCut(buf).at], FindCut(buf).ty)
  {
    Assoc(buf, later, t);
    Assoc(buf[FindCut(buf).at..], later, t);
    CutSplitsEvents(buf, later + t);
    if FindCut(buf).ty.VscodeEventEnd? { EventPiece(buf); } else { PlainPieceHasNoEvent(buf); }
  }

  lemma PieceRest(buf: seq<Byte>, at: nat, later: seq<seq<Byte>>)
    requires at <= |buf|
    ensures Concat((if at == |buf| then [] else [buf[at..]]) + later) == buf[at..] + Concat(later)
    ensures buf[..at] + (buf[at..] + Concat(later)) == buf + Concat(later)
  {
    if at == |buf| {
      assert [] + later == later;
    } else {
      assert ([buf[at..]] + later)[1..] == later;
    }
  }

  /** The two things that happen to a reader, in any order: the network delivers a chunk,
      the consumer asks for a piece. */
  datatype Step = Deliver(chunk: seq<Byte>) | Read

  /** Runs steps from the buffered `chunks`; returns the pieces read and what stays buffered. */
  function Run(chunks: seq<seq<Byte>>, steps: seq<Step>): (seq<seq<Byte>>, seq<seq<Byte>>)
    decreases |steps|
  {
    if steps == [] then ([], chunks)
    else match steps[0]
      case Deliver(chunk) => Run(chunks + [chunk], steps[1..])
      case Read =>
        match ReadFrom([], chunks)
        case Suspended => Run(chunks, steps[1..])
        case Piece(data, _, rest) =>
          var (pieces, left) := Run(rest, steps[1..]);
          ([data] + pieces, left)
  }

  function Delivered(steps: seq<Step>): seq<Byte> {
    if steps == [] then []
    else (if steps[0].Deliver? then steps[0].chunk else []) + Delivered(steps[1..])
  }

  /** The command event that `_handle_result` finds in one piece: it searches once. */
  function SearchPiece(data: seq<Byte>): seq<CommandKey> {
    match Search(data, 0)
    case None => []
    case Some(m) => [KeyOf(m)]
  }

  function PieceEvents(pieces: seq<seq<Byte>>): seq<CommandKey> {
    if pieces == [] then [] else SearchPiece(pieces[0]) + PieceEvents(pieces[1..])
  }

  lemma ReadStepBytes(chunks: seq<seq<Byte>>, later: seq<Byte>)
    ensures ReadFrom([], chunks).Piece? ==>
      var r := ReadFrom([], chunks); r.data + (Concat(r.rest) + later) == Concat(chunks) + later
  {
    var r := ReadFrom([], chunks);
    ReadSplitsEvents([], chunks, []);
    assert [] + Concat(chunks) == Concat(chunks);
    if r.Piece? { Assoc(r.data, Concat(r.rest), later); }
  }

  lemma ReadStepEvents(chunks: seq<seq<Byte>>, later: seq<Byte>)
    ensures ReadFrom([], chunks).Suspended? ==> EventsIn(Concat(chunks)) == []
    ensures ReadFrom([], chunks).Piece? ==>
      var r := ReadFrom([], chunks);
      EventsIn(Concat(chunks) + later) == SearchPiece(r.data) + EventsIn(Concat(r.rest) + later)
  {
    ReadSplitsEvents([], chunks, later);
    EmptyPrefix(Concat(chunks));
    var r := ReadFrom([], chunks);
    if r.Piece? { OneSearchPerPiece(r.data); }
  }

  /** On a piece with at most one event, one search finds every event. */
  lemma OneSearchPerPiece(data: seq<Byte>)
    requires |EventsIn(data)| <= 1
    ensures SearchPiece(data) == EventsIn(data)
  {
    match Search(data, 0)
    case None =>
    case Some(m) => assert EventsIn(data[m.end..]) == [];
  }

  /** Chunking is invisible: for every interleaving of deliveries and reads, the pieces and
      the buffer hold exactly the delivered bytes, and the events handed out followed by those
      still buffered are the events of the flat stream. */
  lemma {:induction false} RunConservesBytes(chunks: seq<seq<Byte>>, steps: seq<Step>)
    ensures var (pieces, left) := Run(chunks, steps);
      Concat(pieces) + Concat(left) == Concat(chunks) + Delivered(steps)
    decreases |steps|
  {
    if steps == [] {
      assert Concat(chunks) + Delivered(steps) == Concat(chunks);
    } else if steps[0].Deliver? {
      ConcatSnoc(chunks, steps[0].chunk);
      Assoc(Concat(chunks), steps[0].chunk, Delivered(steps[1..]));
      RunConservesBytes(chunks + [steps[0].chunk], steps[1..]);
    } else {
      assert Delivered(steps) == Delivered(steps[1..]);
      var r := ReadFrom([], chunks);
      if r.Suspended? {
        RunConservesBytes(chunks, steps[1..]);
      } else {
        RunConservesBytes(r.rest, steps[1..]);
        ReadStepBytes(chunks, Delivered(steps));
        var (pieces, left) := Run(r.rest, steps[1..]);
        assert ([r.data] + pieces)[1..] == pieces;
        Assoc(r.data, Concat(pieces), Concat(left));
      }
    }
  }

  lemma {:induction false} RunFindsFlatEvents(chunks: seq<seq<Byte>>, steps: seq<Step>)
    ensures var (pieces, left) := Run(chunks, steps);
      PieceEvents(pieces) + EventsIn(Concat(left)) == EventsIn(Concat(chunks) + Delivered(steps))
    decreases |steps|
  {
    if steps == [] {
      assert Concat(chunks) + Delivered(steps) == Concat(chunks);
    } else if steps[0].Deliver? {
      ConcatSnoc(chunks, steps[0].chunk);
      Assoc(Concat(chunks), steps[0].chunk, Delivered(steps[1..]));
      RunFindsFlatEvents(chunks + [steps[0].chunk], steps[1..]);
    } else {
      assert Delivered(steps) == Delivered(steps[1..]);
      var r := ReadFrom([], chunks);
      if r.Suspended? {
        RunFindsFlatEvents(chunks, steps[1..]);
      } else {
        RunFindsFlatEvents(r.rest, steps[1..]);
        ReadStepEvents(chunks, Delivered(steps));
        var (pieces, left) := Run(r.rest, steps[1..]);
        assert ([r.data] + pieces)[1..] == pieces;
        Assoc(SearchPiece(r.data), PieceEvents(pieces), EventsIn(Concat(left)));
      }
    }
  }

  /** Two deliveries of the same bytes, cut into any chunks and read in any way until nothing
      more can be cut, hand out the same events. */
  lemma SameEventsForEverySplit(steps1: seq<Step>, steps2: seq<Step>)
    requires Delivered(steps1) == Delivered(steps2)
    requires ReadFrom([], Run([], steps1).1).Suspended? && ReadFrom([], Run([], steps2).1).Suspended?
    ensures PieceEvents(Run([], steps1).0) == PieceEvents(Run([], steps2).0) == EventsIn(Delivered(steps1))
  {
    DrainedRun(steps1);
    DrainedRun(steps2);
  }

  lemma DrainedRun(steps: seq<Step>)
    requires ReadFrom([], Run([], steps).1).Suspended?
    ensures PieceEvents(Run([], steps).0) == EventsIn(Delivered(steps))
  {
    RunFindsFlatEvents([], steps);
    ReadStepEvents(Run([], steps).1, []);
    assert Concat<Byte>([]) + Delivered(steps) == Delivered(steps);
  }
}
