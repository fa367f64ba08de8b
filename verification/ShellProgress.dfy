/**
 When the tokenizer hands nothing out. A start marker that begins no event holds back everything
 behind it, complete lines and bells too, until a complete event arrives.
 */
module ShellProgress {
  import opened Bytes
  import opened ShellEvents

  /** A marker is in front of every bell; without a bell it is at the very front. */
  predicate MarkerLeads(buf: seq<Byte>) {
    var marker, bel := FindMarker(buf, 0), FindByte(buf, BEL, 0);
    marker != -1 && if bel == -1 then marker == 0 else marker < bel
  }

  /** Nothing in the bytes asks for a cut. */
  predicate NothingToCut(buf: seq<Byte>) {
    && BEL !in buf && LF !in buf && RFindByte(buf, CR) < RBUF_MAX_LENGTH
    && forall k :: 0 <= k < |buf| ==> !MarkerAt(buf, k)
  }

  /** The exact condition for waiting. */
  lemma WaitIff(buf: seq<Byte>)
    ensures FindCut(buf).Wait? <==> EventsIn(buf) == [] && (MarkerLeads(buf) || NothingToCut(buf))
  {
    FindMarkerLeast(buf, 0);
    EventHasMarkerAndBell(buf);
  }

  /** Bytes that begin with a marker, or with the beginning of one, and hold no event are not cut. */
  lemma MarkerInFrontWaits(s: seq<Byte>, buf: seq<Byte>)
    requires MarkerAt(s, 0) && buf <= s && Search(s, 0).None?
    ensures FindCut(buf).Wait?
  {
    assert forall k :: 0 <= k < |buf| ==> buf[k] == s[k];
    FindMarkerLeast(buf, 0);
    if |buf| >= 6 {
      assert MarkerAt(buf, 0);
      if Search(buf, 0).Some? {
        assert s == buf + s[|buf|..];
        SearchInPrefix(buf, s[|buf|..]);
      }
    } else {
      NoReturnIn(buf);
    }
  }

  lemma NoReturnIn(buf: seq<Byte>)
    requires forall k :: 0 <= k < |buf| ==> buf[k] != CR
    ensures RFindByte(buf, CR) == -1
  {
  }

  lemma {:induction false} SuspendedWithoutEvent(acc: seq<Byte>, chunks: seq<seq<Byte>>)
    requires MarkerAt(acc + Concat(chunks), 0) && Search(acc + Concat(chunks), 0).None?
    ensures ReadFrom(acc, chunks).Suspended?
    decreases |chunks|
  {
    if chunks != [] {
      var buf, later := acc + chunks[0], Concat(chunks[1..]);
      Assoc(acc, chunks[0], later);
      assert buf <= buf + later;
      MarkerInFrontWaits(buf + later, buf);
      SuspendedWithoutEvent(buf, chunks[1..]);
    }
  }

  /** Behind a marker the reader waits if and only if there is no event at all, however many complete
      lines and bells there are. */
  lemma StarvedIff(chunks: seq<seq<Byte>>)
    requires MarkerAt(Concat(chunks), 0)
    ensures ReadFrom([], chunks).Suspended? <==> EventsIn(Concat(chunks)) == []
  {
    EmptyPrefix(Concat(chunks));
    ReadStepEvents(chunks, []);
    if EventsIn(Concat(chunks)) == [] { SuspendedWithoutEvent([], chunks); }
  }

  /** Over every run that follows, as long as no event has arrived nothing is handed out: one marker
      that begins no event withholds the whole stream behind it. */
  lemma {:induction false} StarvedRun(chunks: seq<seq<Byte>>, steps: seq<Step>)
    requires MarkerAt(Concat(chunks), 0) && EventsIn(Concat(chunks) + Delivered(steps)) == []
    ensures Run(chunks, steps).0 == [] && Concat(Run(chunks, steps).1) == Concat(chunks) + Delivered(steps)
    decreases |steps|
  {
    var s := Concat(chunks);
    if steps == [] {
      EmptySuffix(s);
    } else if steps[0].Deliver? {
      ConcatSnoc(chunks, steps[0].chunk);
      Assoc(s, steps[0].chunk, Delivered(steps[1..]));
      StarvedRun(chunks + [steps[0].chunk], steps[1..]);
    } else {
      assert Delivered(steps) == Delivered(steps[1..]);
      if EventsIn(s) != [] { SearchInPrefix(s, Delivered(steps)); }
      StarvedIff(chunks);
      StarvedRun(chunks, steps[1..]);
    }
  }

  /** `ESC ]784;Z BEL hi LF`: the letter is none of the commands, and the line stays in the buffer. */
  lemma BrokenMarkerWithholdsLine()
    ensures var s: seq<Byte> := [27, 93, 55, 56, 52, 59, 90, 7, 104, 105, 10];
      ReadFrom([], [s]).Suspended?
  {
    var s: seq<Byte> := [27, 93, 55, 56, 52, 59, 90, 7, 104, 105, 10];
    assert [s][1..] == [];
    EmptySuffix(s);
    SearchLeast(s, 0);
    assert forall k :: 1 <= k < |s| ==> s[k] != 27;
    assert forall k: nat :: MatchAt(s, k).Some? ==> MarkerAt(s, k);
    assert Search(s, 0).None?;
    StarvedIff([s]);
  }
}
