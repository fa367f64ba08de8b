/**
 What happens to the events that are still buffered when the end of file is received. The channel
 delivers nothing after it, so the reader drains its buffer; but the result of a read that leaves the
 buffer empty is taken for the end of the stream and is not searched for an event.
 */
module ShellEof {
  import opened Bytes
  import opened ShellEvents

  /** The last chunk holds bytes; an empty chunk behind them would keep the buffer from being empty. */
  predicate LastFull(chunks: seq<seq<Byte>>) {
    chunks != [] && chunks[|chunks| - 1] != []
  }

  lemma ReadShrinks(chunks: seq<seq<Byte>>)
    ensures ReadFrom([], chunks).Piece? ==> |Concat(ReadFrom([], chunks).rest)| < |Concat(chunks)|
  {
    ReadSplitsEvents([], chunks, []);
    EmptyPrefix(Concat(chunks));
  }

  /** The events reported by the reads after the end of file has been received. */
  function HandedOut(chunks: seq<seq<Byte>>): seq<CommandKey>
    decreases |Concat(chunks)|
  {
    match ReadFrom([], chunks)
    case Suspended => []
    case Piece(data, _, rest) =>
      ReadShrinks(chunks);
      if rest == [] then [] else SearchPiece(data) + HandedOut(rest)
  }

  /** The event at the very end of a stream, if it ends in one. */
  function FinalEvent(s: seq<Byte>): seq<CommandKey>
    decreases |s|
  {
    match Search(s, 0)
    case None => []
    case Some(m) => if m.end == |s| then [KeyOf(m)] else FinalEvent(s[m.end..])
  }

  predicate EndsInEvent(s: seq<Byte>) {
    FinalEvent(s) != []
  }

  lemma SameFinalEvent(s: seq<Byte>, u: seq<Byte>)
    requires Search(u, 0).None? <==> Search(s, 0).None?
    requires Search(s, 0).Some? ==>
      var m, n := Search(u, 0).value, Search(s, 0).value;
      KeyOf(m) == KeyOf(n) && u[m.end..] == s[n.end..]
    ensures FinalEvent(u) == FinalEvent(s)
  {
    if Search(s, 0).Some? {
      var m, n := Search(u, 0).value, Search(s, 0).value;
      assert |u[m.end..]| == |s[n.end..]|;
    }
  }

  lemma FinalEventOfSuffix(s: seq<Byte>, c: nat)
    requires c <= |s| && NoMatchBefore(s, c)
    ensures FinalEvent(s[c..]) == FinalEvent(s)
  {
    SearchInSuffix(s, c);
    if Search(s, 0).Some? { DropDrop(s, c, Search(s[c..], 0).value.end); }
    SameFinalEvent(s, s[c..]);
  }

  /** In front of a piece that is not cut at an event, and inside it, no event begins. */
  lemma {:induction false} PlainPieceSkips(acc: seq<Byte>, chunks: seq<seq<Byte>>)
    requires ReadFrom(acc, chunks).Piece? && !ReadFrom(acc, chunks).ty.VscodeEventEnd?
    ensures NoMatchBefore(acc + Concat(chunks), |ReadFrom(acc, chunks).data|)
    decreases |chunks|
  {
    var buf, later := acc + chunks[0], Concat(chunks[1..]);
    Assoc(acc, chunks[0], later);
    if FindCut(buf).Wait? {
      PlainPieceSkips(buf, chunks[1..]);
    } else {
      forall k: nat | k < FindCut(buf).at ensures MatchAt(buf + later, k).None? { PlainCutSkipsNoMatch(buf, later, k); }
    }
  }

  /** What one piece does to the final event. */
  lemma PieceAndFinalEvent(data: seq<Byte>, ty: LineEventType, later: seq<Byte>)
    requires WellCut(data, ty)
    requires !ty.VscodeEventEnd? ==> NoMatchBefore(data + later, |data|)
    ensures FinalEvent(data + later) == if ty.VscodeEventEnd? && later == [] then SearchPiece(data)
        else FinalEvent(later)
  {
    assert (data + later)[|data|..] == later;
    if ty.VscodeEventEnd? {
      SearchInPrefix(data, later);
    } else {
      FinalEventOfSuffix(data + later, |data|);
    }
  }

  /** The last chunk stays the last one until the read that empties the buffer. */
  lemma {:induction false} RestLast(acc: seq<Byte>, chunks: seq<seq<Byte>>)
    requires FindCut(acc).Wait? && ReadFrom(acc, chunks).Piece?
    ensures ReadFrom(acc, chunks).rest == [] ==> LastFull(chunks)
    ensures ReadFrom(acc, chunks).rest != [] ==> (LastFull(ReadFrom(acc, chunks).rest) <==> LastFull(chunks))
    decreases |chunks|
  {
    var buf := acc + chunks[0];
    if FindCut(buf).Wait? {
      RestLast(buf, chunks[1..]);
    } else {
      if chunks[0] == [] { EmptySuffix(acc); }
      assert chunks[0] != [];
    }
  }

  /** What the reads after the end of file do not report. */
  function LostEvent(chunks: seq<seq<Byte>>): seq<CommandKey> {
    if LastFull(chunks) then FinalEvent(Concat(chunks)) else []
  }

  /** The reads after the end of file report every event of the buffered bytes but a final one. */
  lemma {:induction false} FinalEventIsLost(chunks: seq<seq<Byte>>)
    ensures HandedOut(chunks) + LostEvent(chunks) == EventsIn(Concat(chunks))
    decreases |Concat(chunks)|
  {
    var s, r := Concat(chunks), ReadFrom([], chunks);
    EmptyPrefix(s);
    ReadSplitsEvents([], chunks, []);
    ReadStepEvents(chunks, []);
    if r.Piece? {
      EmptySuffix(s);
      EmptySuffix(Concat(r.rest));
      RestLast([], chunks);
      if !r.ty.VscodeEventEnd? { PlainPieceSkips([], chunks); }
      PieceAndFinalEvent(r.data, r.ty, Concat(r.rest));
      ReadShrinks(chunks);
      if r.rest != [] {
        LastFullHasBytes(r.rest);
        FinalEventIsLost(r.rest);
        Assoc(SearchPiece(r.data), HandedOut(r.rest), LostEvent(r.rest));
      }
    }
  }

  lemma LastFullHasBytes(chunks: seq<seq<Byte>>)
    ensures LastFull(chunks) ==> Concat(chunks) != []
  {
    if LastFull(chunks) { ConcatPart(chunks, |chunks| - 1); }
  }

  /** Over every interleaving of deliveries and reads, with the end of file at any point of it: all events
      of the stream are reported if and only if the bytes that are buffered when the end of file is
      received do not end in an event, or an empty chunk is behind them. Otherwise exactly that event
      is missing. */
  lemma LastEventLostIff(steps: seq<Step>)
    ensures var (pieces, left) := Run([], steps);
      && PieceEvents(pieces) + HandedOut(left) + LostEvent(left) == EventsIn(Delivered(steps))
      && (PieceEvents(pieces) + HandedOut(left) == EventsIn(Delivered(steps))
        <==> !(LastFull(left) && EndsInEvent(Concat(left))))
  {
    var (pieces, left) := Run([], steps);
    RunFindsFlatEvents([], steps);
    EmptyPrefix(Delivered(steps));
    FinalEventIsLost(left);
    Assoc(PieceEvents(pieces), HandedOut(left), LostEvent(left));
  }
}
