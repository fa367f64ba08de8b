/**
 The client side of chunked replies: the out-of-order chunk collector, and the life of a reply
 from the call until its future is resolved, for any interleaving of frames and timeouts.
 */
module Replies {
  import opened Bytes
  import opened WsCodec
  import opened WsDecoder

  // ---------------------------------------------------------------- one reply as a state machine

  /** What the header frame of a chunked reply leaves behind. */
  datatype ReplyHeader = ReplyHeader(chunkIndex: nat, metas: seq<Meta>)

  datatype Future = Waiting | Result(arrays: seq<Arr>) | RemoteError | TimedOut | Cancelled

  type Slot = Option<seq<Byte>>

  /** A reply is open while it is in the pending dictionary. */
  datatype Reply = Reply(open: bool, numChunk: int, slots: seq<Slot>, availCnt: nat,
                         header: Option<ReplyHeader>, future: Future)

  /** A reply right after the call. */
  const CALLED := Reply(true, -1, [], 0, None, Waiting)

  datatype Input =
    | HeaderIn(header: ReplyHeader, payload: seq<Byte>)
    | ChunkIn(index: int, payload: seq<Byte>)
    | ErrorIn
    | TimeoutIn
    | CancelIn

  /** Why the receive loop may die. */
  datatype Crash = ResolvedTwice | BadIndex | SlotTaken | BadMessage

  datatype Outcome = Next(reply: Reply) | Crashed(why: Crash)

  /** A Python list index: negative ones count from the end. */
  function PyIndex(index: int, n: nat): Option<nat> {
    if 0 <= index < n then Some(index) else if 0 <= index + n < n then Some(index + n) else None
  }

  lemma PyIndexIff(index: int, n: nat, at: nat)
    ensures PyIndex(index, n) == Some(at) <==> at < n && (index == at || index == at - n)
  {
  }

  function Filled(slots: seq<Slot>): nat {
    if slots == [] then 0 else (if slots[0].Some? then 1 else 0) + Filled(slots[1..])
  }

  /** The payloads of a full slot list. */
  function SlotPayloads(slots: seq<Slot>): seq<seq<Byte>> {
    seq(|slots|, i requires 0 <= i < |slots| => if slots[i].Some? then slots[i].value else [])
  }

  /** `future.set_result` on a decoded message; a reply is removed from the dictionary first. */
  function Resolve(r: Reply, decoded: DecodeResult): Outcome {
    if !decoded.Arrays? then Crashed(BadMessage)
    else if !r.future.Waiting? then Crashed(ResolvedTwice)
    else Next(r.(open := false, future := Result(decoded.arrays)))
  }

  /** The effect on a reply of a frame, of a timeout, or of cancelling the caller that awaits its future.
      Neither an error nor a cancellation takes the reply out of the dictionary. */
  function Step(r: Reply, input: Input): Outcome {
    match input
    case TimeoutIn =>
      if r.future.Waiting? then Next(r.(open := false, future := TimedOut)) else Next(r)
    case CancelIn =>
      if r.future.Waiting? then Next(r.(future := Cancelled)) else Next(r)
    case ErrorIn =>
      if !r.open then Next(r)
      else if !r.future.Waiting? then Crashed(ResolvedTwice)
      else Next(r.(future := RemoteError))
    case HeaderIn(header, payload) =>
      if !r.open then Next(r)
      else if header.chunkIndex > 0 then
        Next(r.(numChunk := header.chunkIndex, slots := seq(header.chunkIndex, _ => None), header := Some(header)))
      else Resolve(r, DecodeSingle(header.metas, payload, 0))
    case ChunkIn(index, payload) =>
      if !r.open then Next(r)
      else match PyIndex(index, |r.slots|)
        case None => Crashed(BadIndex)
        case Some(at) =>
          if r.slots[at].Some? then Crashed(SlotTaken)
          else
            var r' := r.(slots := r.slots[at := Some(payload)], availCnt := r.availCnt + 1);
            if r'.availCnt != r'.numChunk then Next(r')
            else if r'.header.None? then Crashed(BadMessage)
            else Resolve(r', ParsedChunks(r'.header.value, SlotPayloads(r'.slots)))
  }

  function ParsedChunks(header: ReplyHeader, payloads: seq<seq<Byte>>): DecodeResult {
    if header.chunkIndex == 0 || header.chunkIndex != |payloads| then AssertionFailed
    else Decode(header.metas, Concat(payloads))
  }

  function RunReply(r: Reply, inputs: seq<Input>): Outcome
    decreases |inputs|
  {
    if inputs == [] then Next(r)
    else match Step(r, inputs[0])
      case Next(r') => RunReply(r', inputs[1..])
      case crashed => crashed
  }

  lemma {:induction false} RunAppend(r: Reply, a: seq<Input>, b: seq<Input>)
    ensures RunReply(r, a + b) == match RunReply(r, a) case Next(r') => RunReply(r', b) case crashed => crashed
    decreases |a|
  {
    if a == [] {
      assert a + b == b;
    } else {
      assert (a + b)[1..] == a[1..] + b;
      if Step(r, a[0]).Next? { RunAppend(Step(r, a[0]).reply, a[1..], b); }
    }
  }

  // ---------------------------------------------------------------- what every run keeps

  /** A reply that is no longer open has been resolved. */
  predicate Settled(r: Reply) {
    !r.open ==> !r.future.Waiting?
  }

  /** Once a reply is closed nothing changes it any more: late chunks, late headers, errors and
      timeouts are all ignored, so its future keeps the one value it got. */
  lemma {:induction false} ClosedIsFinal(r: Reply, inputs: seq<Input>)
    requires !r.open && Settled(r)
    ensures RunReply(r, inputs) == Next(r)
  {
    if inputs != [] { ClosedIsFinal(r, inputs[1..]); }
  }

  /** A future that is done keeps its value over every run that does not end the receive loop. */
  lemma {:induction false} FutureIsSetOnce(r: Reply, inputs: seq<Input>)
    requires !r.future.Waiting? && RunReply(r, inputs).Next?
    ensures RunReply(r, inputs).reply.future == r.future
    decreases |inputs|
  {
    if inputs != [] { FutureIsSetOnce(Step(r, inputs[0]).reply, inputs[1..]); }
  }

  /** An error frame, a timeout or a cancellation decides a pending call, each in its own way, whatever
      comes after it. */
  lemma FirstOutcomeStays(r: Reply, input: Input, later: seq<Input>)
    requires r.open && r.future.Waiting? && RunReply(r, [input] + later).Next?
    ensures var future := RunReply(r, [input] + later).reply.future;
      && (input.ErrorIn? ==> future == RemoteError)
      && (input.TimeoutIn? ==> future == TimedOut)
      && (input.CancelIn? ==> future == Cancelled)
  {
    assert ([input] + later)[1..] == later;
    var r' := Step(r, input).reply;
    if !r'.future.Waiting? { FutureIsSetOnce(r', later); }
  }

  /** Behind an error frame, timeouts and cancellations do nothing at all. */
  lemma {:induction false} FailedStays(r: Reply, later: seq<Input>)
    requires r.open && r.future.Waiting?
    requires forall i :: 0 <= i < |later| ==> later[i].TimeoutIn? || later[i].CancelIn?
    ensures RunReply(r, [ErrorIn] + later) == Next(r.(future := RemoteError))
  {
    assert ([ErrorIn] + later)[1..] == later;
    NothingLeftToDo(r.(future := RemoteError), later);
  }

  lemma {:induction false} NothingLeftToDo(r: Reply, later: seq<Input>)
    requires !r.future.Waiting? && forall i :: 0 <= i < |later| ==> later[i].TimeoutIn? || later[i].CancelIn?
    ensures RunReply(r, later) == Next(r)
    decreases |later|
  {
    if later != [] { NothingLeftToDo(r, later[1..]); }
  }

  /** Without error frames and cancellations an open reply is unresolved, so no run resolves a future twice. */
  lemma {:induction false} NeverResolvedTwice(r: Reply, inputs: seq<Input>)
    requires r.open <==> r.future.Waiting?
    requires ErrorIn !in inputs && CancelIn !in inputs
    ensures RunReply(r, inputs) != Crashed(ResolvedTwice)
    ensures RunReply(r, inputs).Next? ==>
      (RunReply(r, inputs).reply.open <==> RunReply(r, inputs).reply.future.Waiting?)
    decreases |inputs|
  {
    if inputs != [] && Step(r, inputs[0]).Next? {
      NeverResolvedTwice(Step(r, inputs[0]).reply, inputs[1..]);
    }
  }

  /** The frames that set the future of an open reply: an error; a whole message that can be decoded;
      or the last missing chunk, at a free slot, of a message that can be decoded. */
  predicate SetsFuture(r: Reply, input: Input) {
    match input
    case TimeoutIn | CancelIn => false
    case ErrorIn => true
    case HeaderIn(header, payload) => header.chunkIndex == 0 && DecodeSingle(header.metas, payload, 0).Arrays?
    case ChunkIn(index, payload) =>
      var at := PyIndex(index, |r.slots|);
      && at.Some? && r.slots[at.value].None?
      && r.availCnt + 1 == r.numChunk && r.header.Some?
      && ParsedChunks(r.header.value, SlotPayloads(r.slots[at.value := Some(payload)])).Arrays?
  }

  /** The reply is still in the dictionary although its future is done, and the frame sets it again. */
  predicate SetsFutureAgain(r: Reply, input: Input) {
    r.open && !r.future.Waiting? && SetsFuture(r, input)
  }

  lemma StepResolvesTwiceIff(r: Reply, input: Input)
    ensures Step(r, input) == Crashed(ResolvedTwice) <==> SetsFutureAgain(r, input)
  {
  }

  /** Input `j` finds a reply, reached by the inputs before it, whose future it sets again. */
  predicate SetsFutureAgainAt(r: Reply, inputs: seq<Input>, j: nat)
    requires j < |inputs|
  {
    RunReply(r, inputs[..j]).Next? && SetsFutureAgain(RunReply(r, inputs[..j]).reply, inputs[j])
  }

  lemma SetsFutureAgainLater(r: Reply, inputs: seq<Input>, j: nat)
    requires 0 < j < |inputs| && Step(r, inputs[0]).Next?
    ensures SetsFutureAgainAt(r, inputs, j) <==> SetsFutureAgainAt(Step(r, inputs[0]).reply, inputs[1..], j - 1)
  {
    assert inputs[..j][1..] == inputs[1..][..j - 1];
  }

  /** Exactly when a run resolves a future twice. */
  lemma {:induction false} ResolvedTwiceIff(r: Reply, inputs: seq<Input>)
    ensures RunReply(r, inputs) == Crashed(ResolvedTwice)
      <==> exists j: nat :: j < |inputs| && SetsFutureAgainAt(r, inputs, j)
    decreases |inputs|
  {
    if inputs != [] {
      StepResolvesTwiceIff(r, inputs[0]);
      assert SetsFutureAgainAt(r, inputs, 0) <==> SetsFutureAgain(r, inputs[0]) by { assert inputs[..0] == []; }
      if Step(r, inputs[0]).Next? {
        var r' := Step(r, inputs[0]).reply;
        ResolvedTwiceIff(r', inputs[1..]);
        forall j: nat | 0 < j < |inputs|
          ensures SetsFutureAgainAt(r, inputs, j) <==> SetsFutureAgainAt(r', inputs[1..], j - 1)
        {
          SetsFutureAgainLater(r, inputs, j);
        }
        if RunReply(r, inputs) == Crashed(ResolvedTwice) {
          var k: nat :| k < |inputs[1..]| && SetsFutureAgainAt(r', inputs[1..], k);
          assert SetsFutureAgainAt(r, inputs, k + 1);
        }
      } else if exists j: nat :: j < |inputs| && SetsFutureAgainAt(r, inputs, j) {
        var j: nat :| j < |inputs| && SetsFutureAgainAt(r, inputs, j);
        assert j > 0 ==> inputs[..j][0] == inputs[0];
      }
    }
  }

  /** And the reply got into that state by an error frame or a cancellation earlier in the run, which
      resolved the future but did not remove the reply. */
  lemma ErrorOrCancelCameFirst(r: Reply, inputs: seq<Input>, j: nat)
    requires (r.open <==> r.future.Waiting?) && j < |inputs| && SetsFutureAgainAt(r, inputs, j)
    ensures ErrorIn in inputs[..j] || CancelIn in inputs[..j]
  {
    if ErrorIn !in inputs[..j] && CancelIn !in inputs[..j] { NeverResolvedTwice(r, inputs[..j]); }
  }

  /** An error frame, or a cancelled caller, followed by a result for the same call kills the receive loop. */
  lemma LateResultCrashes(first: Input)
    requires first == ErrorIn || first == CancelIn
    ensures RunReply(CALLED, [first, HeaderIn(ReplyHeader(0, []), [])]) == Crashed(ResolvedTwice)
  {
    assert [first, HeaderIn(ReplyHeader(0, []), [])][1..] == [HeaderIn(ReplyHeader(0, []), [])];
    var r := Step(CALLED, first).reply;
    assert Step(r, HeaderIn(ReplyHeader(0, []), [])) == Crashed(ResolvedTwice);
  }

  // ---------------------------------------------------------------- collecting chunks out of order

  lemma {:induction false} FilledBound(slots: seq<Slot>)
    ensures Filled(slots) <= |slots|
    ensures Filled(slots) == |slots| <==> forall i :: 0 <= i < |slots| ==> slots[i].Some?
  {
    if slots != [] {
      FilledBound(slots[1..]);
      assert forall i :: 0 < i < |slots| ==> slots[i] == slots[1..][i - 1];
      if forall i :: 0 <= i < |slots[1..]| ==> slots[1..][i].Some? {
        assert slots[0].Some? ==> forall i :: 0 <= i < |slots| ==> slots[i].Some?;
      }
    }
  }

  lemma {:induction false} FilledUpdate(slots: seq<Slot>, at: nat, x: seq<Byte>)
    requires at < |slots| && slots[at].None?
    ensures Filled(slots[at := Some(x)]) == Filled(slots) + 1
  {
    var slots' := slots[at := Some(x)];
    if at == 0 {
      assert slots'[1..] == slots[1..];
    } else {
      assert slots'[1..] == slots[1..][at - 1 := Some(x)];
      FilledUpdate(slots[1..], at - 1, x);
    }
  }

  lemma {:induction false} FilledNone(slots: seq<Slot>)
    requires forall i :: 0 <= i < |slots| ==> slots[i].None?
    ensures Filled(slots) == 0
  {
    if slots != [] { FilledNone(slots[1..]); }
  }

  /** A header that (re)allocates the slots of an open reply. */
  predicate Reallocates(r: Reply, input: Input) {
    r.open && input.HeaderIn? && input.header.chunkIndex > 0
  }

  /** The counter counts the filled slots. One step keeps that unless it is a second chunked header
      that arrives when chunks are already in: `init_chunks` empties the slots but not the counter. */
  lemma CounterStep(r: Reply, input: Input)
    requires r.availCnt == Filled(r.slots) && Step(r, input).Next?
    ensures var r' := Step(r, input).reply;
      r'.availCnt == Filled(r'.slots) <==> !(Reallocates(r, input) && r.availCnt > 0)
  {
    if Reallocates(r, input) {
      FilledNone(seq(input.header.chunkIndex, _ => None));
    } else if r.open && input.ChunkIn? {
      FilledUpdate(r.slots, PyIndex(input.index, |r.slots|).value, input.payload);
    }
  }

  /** How many chunked headers a run holds. */
  function ChunkedHeaders(inputs: seq<Input>): nat {
    if inputs == [] then 0
    else (if inputs[0].HeaderIn? && inputs[0].header.chunkIndex > 0 then 1 else 0) + ChunkedHeaders(inputs[1..])
  }

  /** So over every run with at most one chunked header, whatever else arrives in whatever order, the
      counter is the number of filled slots; before that header no chunk is accepted at all. */
  lemma {:induction false} CounterCountsSlots(r: Reply, inputs: seq<Input>)
    requires r.availCnt == Filled(r.slots) && RunReply(r, inputs).Next?
    requires ChunkedHeaders(inputs) == 0 || (ChunkedHeaders(inputs) == 1 && r.slots == [])
    ensures var r' := RunReply(r, inputs).reply; r'.availCnt == Filled(r'.slots)
    decreases |inputs|
  {
    if inputs != [] {
      CounterStep(r, inputs[0]);
      CounterCountsSlots(Step(r, inputs[0]).reply, inputs[1..]);
    }
  }

  /** The slots of `payloads` that are filled once the chunks `got` have arrived. */
  function SlotsOf(payloads: seq<seq<Byte>>, got: seq<nat>): seq<Slot> {
    seq(|payloads|, i requires 0 <= i < |payloads| => if i in got then Some(payloads[i]) else None)
  }

  predicate Distinct(order: seq<nat>) {
    forall i, j :: 0 <= i < j < |order| ==> order[i] != order[j]
  }

  predicate Below(order: seq<nat>, n: nat) {
    forall i :: 0 <= i < |order| ==> order[i] < n
  }

  /** A reply whose header has arrived and whose chunks `got` have arrived. */
  function Collecting(header: ReplyHeader, payloads: seq<seq<Byte>>, got: seq<nat>): Reply {
    Reply(true, |payloads|, SlotsOf(payloads, got), |got|, Some(header), Waiting)
  }

  function ChunkInputs(payloads: seq<seq<Byte>>, order: seq<nat>): seq<Input>
    requires Below(order, |payloads|)
  {
    seq(|order|, i requires 0 <= i < |order| => ChunkIn(order[i], payloads[order[i]]))
  }

  lemma {:induction false} FilledSlots(payloads: seq<seq<Byte>>, got: seq<nat>)
    requires Distinct(got) && Below(got, |payloads|)
    ensures Filled(SlotsOf(payloads, got)) == |got|
  {
    if got == [] {
      FilledNone(SlotsOf(payloads, []));
    } else {
      var init, last := got[..|got| - 1], got[|got| - 1];
      FilledSlots(payloads, init);
      assert got == init + [last];
      assert SlotsOf(payloads, got) == SlotsOf(payloads, init)[last := Some(payloads[last])];
      FilledUpdate(SlotsOf(payloads, init), last, payloads[last]);
    }
  }

  /** Pigeonhole: as many distinct chunks as there are slots fill every slot, each with its own payload. */
  lemma AllSlotsFilled(payloads: seq<seq<Byte>>, got: seq<nat>)
    requires Distinct(got) && Below(got, |payloads|) && |got| == |payloads|
    ensures SlotPayloads(SlotsOf(payloads, got)) == payloads
  {
    FilledSlots(payloads, got);
    FilledBound(SlotsOf(payloads, got));
  }

  /** A chunk that is not in yet has a free slot, which it fills. */
  lemma NewSlot(payloads: seq<seq<Byte>>, got: seq<nat>, x: nat)
    requires x < |payloads| && Distinct(got + [x]) && Below(got, |payloads|)
    ensures Below(got + [x], |payloads|) && SlotsOf(payloads, got)[x].None?
    ensures SlotsOf(payloads, got)[x := Some(payloads[x])] == SlotsOf(payloads, got + [x])
  {
    assert (got + [x])[|got|] == x;
    assert x !in got by { forall i | 0 <= i < |got| ensures got[i] != x { assert (got + [x])[i] == got[i]; } }
  }

  /** The step of a chunk that fills a free slot. */
  lemma FreeSlotStep(r: Reply, x: nat, payload: seq<Byte>)
    requires r.open && x < |r.slots| && r.slots[x].None? && r.header.Some?
    ensures var r' := r.(slots := r.slots[x := Some(payload)], availCnt := r.availCnt + 1);
      Step(r, ChunkIn(x, payload)) == if r'.availCnt != r'.numChunk then Next(r')
        else Resolve(r', ParsedChunks(r'.header.value, SlotPayloads(r'.slots)))
  {
  }

  /** One more chunk. */
  lemma CollectOne(header: ReplyHeader, payloads: seq<seq<Byte>>, got: seq<nat>, x: nat)
    requires x < |payloads| && Distinct(got + [x]) && Below(got, |payloads|) && header.chunkIndex == |payloads|
    ensures |got| + 1 < |payloads| ==>
      Step(Collecting(header, payloads, got), ChunkIn(x, payloads[x])) == Next(Collecting(header, payloads, got + [x]))
    ensures |got| + 1 == |payloads| ==>
      Step(Collecting(header, payloads, got), ChunkIn(x, payloads[x]))
        == Resolve(Collecting(header, payloads, got + [x]), Decode(header.metas, Concat(payloads)))
  {
    NewSlot(payloads, got, x);
    FreeSlotStep(Collecting(header, payloads, got), x, payloads[x]);
    if |got| + 1 == |payloads| { AllSlotsFilled(payloads, got + [x]); }
  }

  /** Chunks in any order: the reply stays open until as many chunks as slots have arrived, and the
      very last one resolves it with the message decoded from the payloads in index order. */
  lemma {:induction false} CollectAnyOrder(header: ReplyHeader, payloads: seq<seq<Byte>>, got: seq<nat>,
      order: seq<nat>)
    requires Distinct(got + order) && Below(got, |payloads|) && Below(order, |payloads|)
    requires |got| < |payloads| == header.chunkIndex && |got| + |order| <= |payloads|
    ensures RunReply(Collecting(header, payloads, got), ChunkInputs(payloads, order)) ==
      if |got| + |order| < |payloads| then Next(Collecting(header, payloads, got + order))
      else Resolve(Collecting(header, payloads, got + order), Decode(header.metas, Concat(payloads)))
    decreases |order|
  {
    if order == [] {
      assert got + order == got;
    } else {
      var x, inputs := order[0], ChunkInputs(payloads, order);
      assert got + order == (got + [x]) + order[1..];
      assert (got + [x]) == (got + order)[..|got| + 1];
      CollectOne(header, payloads, got, x);
      assert inputs[1..] == ChunkInputs(payloads, order[1..]);
      if order[1..] != [] {
        CollectAnyOrder(header, payloads, got + [x], order[1..]);
      } else {
        assert inputs[1..] == [] && got + order == got + [x];
      }
    }
  }

  lemma HeaderOpens(header: ReplyHeader, payloads: seq<seq<Byte>>)
    requires header.chunkIndex == |payloads| > 0
    ensures RunReply(CALLED, [HeaderIn(header, [])]) == Next(Collecting(header, payloads, []))
  {
    assert [HeaderIn(header, [])][1..] == [];
    assert SlotsOf(payloads, []) == seq(header.chunkIndex, _ => None);
  }

  /** A header and any proper part of its chunks, in any order, leave the reply open. */
  lemma OpenBeforeLastChunk(header: ReplyHeader, payloads: seq<seq<Byte>>, order: seq<nat>)
    requires Distinct(order) && Below(order, |payloads|) && |order| < |payloads| == header.chunkIndex
    ensures RunReply(CALLED, [HeaderIn(header, [])] + ChunkInputs(payloads, order))
        == Next(Collecting(header, payloads, order))
  {
    HeaderOpens(header, payloads);
    RunAppend(CALLED, [HeaderIn(header, [])], ChunkInputs(payloads, order));
    EmptyPrefix(order);
    CollectAnyOrder(header, payloads, [], order);
  }

  /** A chunk that is in already, or that has no slot, ends the receive loop. */
  lemma ChunkCrashes(header: ReplyHeader, payloads: seq<seq<Byte>>, order: seq<nat>, index: int, payload: seq<Byte>)
    requires Distinct(order) && Below(order, |payloads|) && |order| < |payloads| == header.chunkIndex
    ensures var before := [HeaderIn(header, [])] + ChunkInputs(payloads, order);
      var r, n := RunReply(CALLED, before + [ChunkIn(index, payload)]), |payloads|;
      && (index in order || index + n in order ==> r == Crashed(SlotTaken))
      && (index < -n || n <= index ==> r == Crashed(BadIndex))
  {
    OpenBeforeLastChunk(header, payloads, order);
    RunAppend(CALLED, [HeaderIn(header, [])] + ChunkInputs(payloads, order), [ChunkIn(index, payload)]);
    assert [ChunkIn(index, payload)][1..] == [];
    var r := Collecting(header, payloads, order);
    if index in order { PyIndexIff(index, |payloads|, index); }
    if index + |payloads| in order { PyIndexIff(index, |payloads|, index + |payloads|); }
  }

  /** A whole reply: header, then the chunks in any order. It completes on its last chunk, and by
      `OpenBeforeLastChunk` on no earlier one. */
  lemma ReplyCompletesOnLastChunk(header: ReplyHeader, payloads: seq<seq<Byte>>, order: seq<nat>, arrays: seq<Arr>)
    requires Distinct(order) && Below(order, |payloads|) && |order| == |payloads| == header.chunkIndex > 0
    requires Decode(header.metas, Concat(payloads)) == Arrays(arrays)
    ensures RunReply(CALLED, [HeaderIn(header, [])] + ChunkInputs(payloads, order))
      == Next(Collecting(header, payloads, order).(open := false, future := Result(arrays)))
  {
    HeaderOpens(header, payloads);
    RunAppend(CALLED, [HeaderIn(header, [])], ChunkInputs(payloads, order));
    EmptyPrefix(order);
    CollectAnyOrder(header, payloads, [], order);
  }

  /** A timeout before the last chunk wins, and everything that arrives afterwards is ignored. */
  lemma TimeoutBeforeLastChunk(header: ReplyHeader, payloads: seq<seq<Byte>>, order: seq<nat>, late: seq<Input>)
    requires Distinct(order) && Below(order, |payloads|) && |order| < |payloads| == header.chunkIndex
    ensures RunReply(CALLED, [HeaderIn(header, [])] + ChunkInputs(payloads, order) + ([TimeoutIn] + late))
      == Next(Collecting(header, payloads, order).(open := false, future := TimedOut))
  {
    OpenBeforeLastChunk(header, payloads, order);
    RunAppend(CALLED, [HeaderIn(header, [])] + ChunkInputs(payloads, order), [TimeoutIn] + late);
    assert ([TimeoutIn] + late)[1..] == late;
    ClosedIsFinal(Collecting(header, payloads, order).(open := false, future := TimedOut), late);
  }

  /** The websocket round trip: any list of arrays, cut into frames of any size, the frames delivered
      in any order, is what the future of the call is resolved with. */
  lemma WebsocketRoundTrip(arrays: seq<Arr>, per: nat, order: seq<nat>)
    requires per > 0 && (forall i :: 0 <= i < |arrays| ==> ValidArr(arrays[i])) && Concat(Datas(arrays)) != []
    requires var n := DivUp(|Concat(Datas(arrays))|, per); Distinct(order) && Below(order, n) && |order| == n
    ensures var payloads := Payloads(Concat(Datas(arrays)), per);
      var r := RunReply(CALLED, [HeaderIn(ReplyHeader(|payloads|, Metas(arrays)), [])] + ChunkInputs(payloads, order));
      r.Next? && r.reply.future == Result(arrays)
  {
    var payloads := Payloads(Concat(Datas(arrays)), per);
    DivUpBounds(|Concat(Datas(arrays))|, per);
    ChunkedRoundTrip(arrays, per);
    ReplyCompletesOnLastChunk(ReplyHeader(|payloads|, Metas(arrays)), payloads, order, arrays);
  }

  /** The same for a message that is not chunked, including the header-only message of an empty payload. */
  lemma SingleMessageRoundTrip(arrays: seq<Arr>)
    requires forall i :: 0 <= i < |arrays| ==> ValidArr(arrays[i])
    ensures RunReply(CALLED, [HeaderIn(ReplyHeader(0, Metas(arrays)), Concat(Datas(arrays)))])
      == Next(CALLED.(open := false, future := Result(arrays)))
  {
    DecodeFlat(arrays, []);
    assert Concat(Datas(arrays)) + [] == Concat(Datas(arrays));
    SingleDecodes(Metas(arrays), Concat(Datas(arrays)), 0);
  }
}
