/**
 The websocket client: many concurrent replies in one dictionary, fed by one stream of frames.
 */
module Client {
  import opened Bytes
  import opened WsCodec
  import opened WsDecoder
  import opened Replies

  /** A new call, or something that happens to a call: a frame, a timeout, a cancellation. */
  datatype Incoming = Called(id: int) | Incoming(id: int, input: Input)

  // ---------------------------------------------------------------- all replies at once

  datatype ClientOutcome = Running(replies: map<int, Reply>) | Died(why: Crash)

  /** A call puts a new reply into the dictionary; frames of unknown calls are dropped; a crash ends the
      receive loop. */
  function Dispatch(replies: map<int, Reply>, ev: Incoming): ClientOutcome {
    if ev.Called? then Running(replies[ev.id := CALLED])
    else if ev.id !in replies then Running(replies)
    else match Step(replies[ev.id], ev.input)
      case Next(r) => Running(replies[ev.id := r])
      case Crashed(why) => Died(why)
  }

  function RunClient(replies: map<int, Reply>, events: seq<Incoming>): ClientOutcome
    decreases |events|
  {
    if events == [] then Running(replies)
    else match Dispatch(replies, events[0])
      case Running(replies') => RunClient(replies', events[1..])
      case died => died
  }

  // ---------------------------------------------------------------- one call among them

  /** The events of one call, in order. */
  function Own(events: seq<Incoming>, id: int): seq<Incoming> {
    if events == [] then [] else (if events[0].id == id then [events[0]] else []) + Own(events[1..], id)
  }

  /** The reply of a call that may not have been made yet. */
  function Lookup(replies: map<int, Reply>, id: int): Option<Reply> {
    if id in replies then Some(replies[id]) else None
  }

  datatype OwnOutcome = Alive(reply: Option<Reply>) | Dead(why: Crash)

  /** What the events of one call alone lead to. */
  function RunOwn(r: Option<Reply>, events: seq<Incoming>): OwnOutcome
    decreases |events|
  {
    if events == [] then Alive(r)
    else if events[0].Called? then RunOwn(Some(CALLED), events[1..])
    else if r.None? then RunOwn(None, events[1..])
    else match Step(r.value, events[0].input)
      case Next(r') => RunOwn(Some(r'), events[1..])
      case Crashed(why) => Dead(why)
  }

  lemma OwnHead(events: seq<Incoming>, id: int)
    requires events != []
    ensures events[0].id == id ==>
      Own(events, id) != [] && Own(events, id)[0] == events[0] && Own(events, id)[1..] == Own(events[1..], id)
    ensures events[0].id != id ==> Own(events, id) == Own(events[1..], id)
  {
  }

  /** Calls do not interfere: however calls, frames, timeouts and cancellations are interleaved, every call
      ends in the state that its own events alone lead to. */
  lemma {:induction false} CallsDoNotInterfere(replies: map<int, Reply>, events: seq<Incoming>, id: int)
    requires RunClient(replies, events).Running?
    ensures RunOwn(Lookup(replies, id), Own(events, id)) == Alive(Lookup(RunClient(replies, events).replies, id))
    decreases |events|
  {
    if events != [] {
      OwnHead(events, id);
      CallsDoNotInterfere(Dispatch(replies, events[0]).replies, events[1..], id);
    }
  }

  /** And the loop dies only if the events of some call alone would kill it. */
  lemma {:induction false} DeathHasOneCause(replies: map<int, Reply>, events: seq<Incoming>) returns (id: int)
    requires RunClient(replies, events).Died?
    ensures RunOwn(Lookup(replies, id), Own(events, id)) == Dead(RunClient(replies, events).why)
    decreases |events|
  {
    if Dispatch(replies, events[0]).Died? {
      id := events[0].id;
      OwnHead(events, id);
    } else {
      id := DeathHasOneCause(Dispatch(replies, events[0]).replies, events[1..]);
      OwnHead(events, id);
    }
  }

  /** The inputs of events that are no calls. */
  function Inputs(events: seq<Incoming>): seq<Input>
    requires forall i :: 0 <= i < |events| ==> events[i].Incoming?
  {
    seq(|events|, i requires 0 <= i < |events| => events[i].input)
  }

  /** Once a call has been made, and not made again, it is the reply of its inputs. */
  lemma {:induction false} RunOwnIsRunReply(r: Reply, events: seq<Incoming>)
    requires forall i :: 0 <= i < |events| ==> events[i].Incoming?
    ensures RunOwn(Some(r), events) == match RunReply(r, Inputs(events)) case Next(r')
        => Alive(Some(r')) case Crashed(why) => Dead(why)
    decreases |events|
  {
    if events != [] {
      assert Inputs(events)[1..] == Inputs(events[1..]);
      if Step(r, events[0].input).Next? { RunOwnIsRunReply(Step(r, events[0].input).reply, events[1..]); }
    }
  }

  /** Whatever came before a call, it starts anew. */
  lemma {:induction false} RunOwnFromCall(r: Option<Reply>, before: seq<Incoming>, call: Incoming, after: seq<Incoming>)
    requires call.Called? && RunOwn(r, before + [call] + after).Alive?
    ensures RunOwn(r, before + [call] + after) == RunOwn(Some(CALLED), after)
    decreases |before|
  {
    var all := before + [call] + after;
    if before == [] {
      assert all[1..] == after;
    } else {
      assert all[1..] == before[1..] + [call] + after;
      var ev := before[0];
      if ev.Called? {
        RunOwnFromCall(Some(CALLED), before[1..], call, after);
      } else if r.None? {
        RunOwnFromCall(None, before[1..], call, after);
      } else {
        RunOwnFromCall(Some(Step(r.value, ev.input).reply), before[1..], call, after);
      }
    }
  }

  /** A call made at any time, among any other traffic: its future is what its own inputs lead to. */
  lemma CallAmongOthers(replies: map<int, Reply>, events: seq<Incoming>, id: int, before: seq<Incoming>,
      after: seq<Incoming>)
    requires RunClient(replies, events).Running? && Own(events, id) == before + [Called(id)] + after
    requires forall i :: 0 <= i < |after| ==> after[i].Incoming?
    ensures id in RunClient(replies, events).replies
    ensures RunReply(CALLED, Inputs(after)) == Next(RunClient(replies, events).replies[id])
  {
    CallsDoNotInterfere(replies, events, id);
    RunOwnFromCall(Lookup(replies, id), before, Called(id), after);
    RunOwnIsRunReply(CALLED, after);
  }

  // ---------------------------------------------------------------- the encoder's frames

  /** What a received frame is to the client; the metadata list travels in the header message. */
  function Receive(f: Frame, metas: seq<Meta>): Incoming
  {
    match f
    case HeaderFrame(_, _, rpcId, chunkIndex, payload) =>
      Incoming(rpcId, HeaderIn(ReplyHeader(chunkIndex, metas), payload))
    case DataFrame(_, _, encRpcId, encIndex, payload) =>
      Incoming(DecodeUint(encRpcId), ChunkIn(DecodeUint(encIndex), payload))
  }

  /** Some frames, received in some order. */
  function ReceiveAll(frames: seq<Frame>, metas: seq<Meta>, order: seq<nat>): seq<Incoming>
    requires Below(order, |frames|)
  {
    seq(|order|, i requires 0 <= i < |order| => Receive(frames[order[i]], metas))
  }

  /** An order in which all the data frames behind a header can arrive. */
  predicate DeliveryOrder(frames: seq<Frame>, order: seq<nat>) {
    frames != [] && Distinct(order) && Below(order, |frames[1..]|) && |order| == |frames[1..]|
  }

  /** The header message, and the data frames in some order. */
  function Delivered(frames: seq<Frame>, metas: seq<Meta>, order: seq<nat>): seq<Incoming>
    requires DeliveryOrder(frames, order)
  {
    [Receive(frames[0], metas)] + ReceiveAll(frames[1..], metas, order)
  }

  predicate AllOf(events: seq<Incoming>, id: int) {
    forall i :: 0 <= i < |events| ==> events[i].Incoming? && events[i].id == id
  }

  /** The encoder's data frames are chunks of the call they were made for, with their indices. */
  lemma FramesAreChunks(serviceId: nat, rpcId: nat, flat: seq<Byte>, per: nat, metas: seq<Meta>, order: seq<nat>)
    requires per > 0 && Below(order, DivUp(|flat|, per))
    ensures var events := ReceiveAll(DataFrames(false, serviceId, rpcId, flat, per), metas, order);
      AllOf(events, rpcId) && Inputs(events) == ChunkInputs(Payloads(flat, per), order)
  {
    var frames := DataFrames(false, serviceId, rpcId, flat, per);
    assert forall i :: 0 <= i < |frames| ==> frames[i].DataFrame? && frames[i].encRpcId == rpcId + 1;
    var events := ReceiveAll(frames, metas, order);
    forall i | 0 <= i < |order|
      ensures events[i] == Incoming(rpcId, ChunkIn(order[i], Payloads(flat, per)[order[i]]))
    {
      assert frames[order[i]].encIndex == order[i] + 1;
    }
  }

  lemma InputsCons(ev: Incoming, events: seq<Incoming>, id: int)
    requires ev.Incoming? && ev.id == id && AllOf(events, id)
    ensures AllOf([ev] + events, id) && Inputs([ev] + events) == [ev.input] + Inputs(events)
  {
  }

  /** The frames that the encoder makes for a reply reach exactly the call with its id: the header with
      the number of chunks and the chunks with their indices, or the whole message. */
  lemma EncodedReplyIsReceived(serviceId: nat, rpcId: nat, arrays: seq<Arr>, sizes: Sizes, order: seq<nat>)
    requires Sendable(|Concat(Datas(arrays))|, sizes)
    requires DeliveryOrder(Encoded(MsgKind.Rpc, serviceId, rpcId, arrays, sizes).frames, order)
    ensures var frames, flat := Encoded(MsgKind.Rpc, serviceId, rpcId, arrays, sizes).frames, Concat(Datas(arrays));
      var events := Delivered(frames, Metas(arrays), order);
      && AllOf(events, rpcId)
      && if |order| == 0 then Inputs(events) == [HeaderIn(ReplyHeader(0, Metas(arrays)), flat)]
         else
           && 5 + sizes.chunkHeader < sizes.chunk && flat != []
           && var payloads := Payloads(flat, sizes.chunk - sizes.chunkHeader - 5);
           && Below(order, |payloads|) && |order| == |payloads|
           && Inputs(events) == [HeaderIn(ReplyHeader(|payloads|, Metas(arrays)), [])] + ChunkInputs(payloads, order)
  {
    var frames, flat := Encoded(MsgKind.Rpc, serviceId, rpcId, arrays, sizes).frames, Concat(Datas(arrays));
    if 5 + sizes.request + |flat| >= sizes.chunk {
      ChunkedReplyIsReceived(serviceId, rpcId, flat, sizes.chunk - sizes.chunkHeader - 5, Metas(arrays), frames, order);
    } else {
      assert frames[1..] == [];
      InputsCons(Receive(frames[0], Metas(arrays)), [], rpcId);
      EmptySuffix([Receive(frames[0], Metas(arrays))]);
    }
  }

  lemma ChunkedReplyIsReceived(serviceId: nat, rpcId: nat, flat: seq<Byte>, per: nat, metas: seq<Meta>,
    frames: seq<Frame>, order: seq<nat>)
    requires per > 0 && DeliveryOrder(frames, order)
    requires frames == [HeaderFrame(MsgKind.Rpc, serviceId, rpcId, DivUp(|flat|, per), [])]
      + DataFrames(false, serviceId, rpcId, flat, per)
    ensures var events, payloads := Delivered(frames, metas, order), Payloads(flat, per);
      && AllOf(events, rpcId)
      && Below(order, |payloads|) && |order| == |payloads| && (flat == [] <==> |order| == 0)
      && Inputs(events) == [HeaderIn(ReplyHeader(|payloads|, metas), [])] + ChunkInputs(payloads, order)
  {
    DivUpBounds(|flat|, per);
    var data := DataFrames(false, serviceId, rpcId, flat, per);
    assert frames[1..] == data;
    FramesAreChunks(serviceId, rpcId, flat, per, metas, order);
    assert forall i :: 1 <= i < |frames| ==> frames[i] == data[i - 1];
    InputsCons(Receive(frames[0], metas), ReceiveAll(data, metas, order), rpcId);
  }

  /** The inputs that the encoder's frames are resolve the future with the arrays. */
  lemma ReceivedReplyResolves(flat: seq<Byte>, arrays: seq<Arr>, sizes: Sizes, order: seq<nat>, inputs: seq<Input>)
    requires (forall i :: 0 <= i < |arrays| ==> ValidArr(arrays[i])) && flat == Concat(Datas(arrays)) && Distinct(order)
    requires if |order| == 0 then inputs == [HeaderIn(ReplyHeader(0, Metas(arrays)), flat)]
      else
        && 5 + sizes.chunkHeader < sizes.chunk && flat != []
        && var payloads := Payloads(flat, sizes.chunk - sizes.chunkHeader - 5);
        && Below(order, |payloads|) && |order| == |payloads|
        && inputs == [HeaderIn(ReplyHeader(|payloads|, Metas(arrays)), [])] + ChunkInputs(payloads, order)
    ensures RunReply(CALLED, inputs).Next? && RunReply(CALLED, inputs).reply.future == Result(arrays)
  {
    if |order| == 0 {
      SingleMessageRoundTrip(arrays);
    } else {
      WebsocketRoundTrip(arrays, sizes.chunk - sizes.chunkHeader - 5, order);
    }
  }

  /** The encoder's frames of a reply, the data frames in any order. */
  predicate DeliveryOf(events: seq<Incoming>, serviceId: nat, rpcId: nat, arrays: seq<Arr>, sizes: Sizes,
      order: seq<nat>)
    requires Sendable(|Concat(Datas(arrays))|, sizes)
  {
    EncodedIff(MsgKind.Rpc, serviceId, rpcId, arrays, sizes);
    var encoded := Encoded(MsgKind.Rpc, serviceId, rpcId, arrays, sizes);
    DeliveryOrder(encoded.frames, order) && events == Delivered(encoded.frames, Metas(arrays), order)
  }

  lemma DeliveryResolves(events: seq<Incoming>, serviceId: nat, rpcId: nat, arrays: seq<Arr>, sizes: Sizes,
      order: seq<nat>)
    requires Sendable(|Concat(Datas(arrays))|, sizes) && DeliveryOf(events, serviceId, rpcId, arrays, sizes, order)
    requires forall i :: 0 <= i < |arrays| ==> ValidArr(arrays[i])
    ensures AllOf(events, rpcId)
    ensures RunReply(CALLED, Inputs(events)).Next? && RunReply(CALLED, Inputs(events)).reply.future == Result(arrays)
  {
    EncodedReplyIsReceived(serviceId, rpcId, arrays, sizes, order);
    ReceivedReplyResolves(Concat(Datas(arrays)), arrays, sizes, order, Inputs(events));
  }

  /** End to end: whatever arrays a reply consists of and whatever the frame size, the frames that the
      encoder makes of it, delivered behind the call with the data frames in any order and among any
      other traffic, resolve the future of the call with exactly these arrays. */
  lemma EncodedReplyArrives(replies: map<int, Reply>, events: seq<Incoming>, serviceId: nat, id: nat, arrays: seq<Arr>,
    sizes: Sizes, order: seq<nat>, before: seq<Incoming>, after: seq<Incoming>)
    requires RunClient(replies, events).Running? && Own(events, id) == before + [Called(id)] + after
    requires Sendable(|Concat(Datas(arrays))|, sizes) && DeliveryOf(after, serviceId, id, arrays, sizes, order)
    requires forall i :: 0 <= i < |arrays| ==> ValidArr(arrays[i])
    ensures id in RunClient(replies, events).replies
    ensures RunClient(replies, events).replies[id].future == Result(arrays)
  {
    DeliveryResolves(after, serviceId, id, arrays, sizes, order);
    CallAmongOthers(replies, events, id, before, after);
  }

  // ---------------------------------------------------------------- the objects

  class PendingReply {
    const rpcId: int
    var numChunk: int
    var chunks: seq<Slot>
    var availCnt: nat
    var future: Future
    var header: Option<ReplyHeader>

    constructor (rpcId: int)
      ensures this.rpcId == rpcId && State(true) == CALLED
    {
      this.rpcId := rpcId;
      numChunk, chunks, availCnt, future, header := -1, [], 0, Waiting, None;
    }

    /** The reply as a value; whether it is open is known to the dictionary. */
    function State(open: bool): Reply
      reads this
    {
      Reply(open, numChunk, chunks, availCnt, header, future)
    }

    /** `insert_chunk`; a failing assertion or index ends the receive loop. */
    method InsertChunk(data: seq<Byte>, chunkIdx: int) returns (crash: Option<Crash>, finished: bool)
      modifies this`chunks, this`availCnt
      ensures crash == match PyIndex(chunkIdx, old(|chunks|))
        case None => Some(BadIndex)
        case Some(at) => if old(chunks)[at].Some? then Some(SlotTaken) else None
      ensures crash.None? ==>
        && chunks == old(chunks)[PyIndex(chunkIdx, old(|chunks|)).value := Some(data)]
        && availCnt == old(availCnt) + 1 && finished == (availCnt == numChunk)
      ensures crash.Some? ==> unchanged(this)
    {
      var at := PyIndex(chunkIdx, |chunks|);
      if at.None? { return Some(BadIndex), false; }
      if chunks[at.value].Some? { return Some(SlotTaken), false; }
      chunks := chunks[at.value := Some(data)];
      availCnt := availCnt + 1;
      crash, finished := None, availCnt == numChunk;
    }

    method InitChunks(numChunk: nat)
      modifies this`chunks, this`numChunk
      ensures this.numChunk == numChunk && chunks == seq(numChunk, _ => None)
    {
      this.numChunk := numChunk;
      chunks := seq(numChunk, _ => None);
    }

    /** `future.set_result` on a decoded message. */
    method SetResult(decoded: DecodeResult) returns (crash: Option<Crash>)
      modifies this`future
      ensures crash.None? ==> Resolve(old(State(false)), decoded) == Next(State(false))
      ensures crash.Some? ==> Resolve(old(State(false)), decoded) == Crashed(crash.value) && unchanged(this)
    {
      if !decoded.Arrays? { return Some(BadMessage); }
      if !future.Waiting? { return Some(ResolvedTwice); }
      future := Result(decoded.arrays);
      crash := None;
    }

    /** The last chunk is in: the message is decoded from the slots and resolves the future. */
    method Finish() returns (crash: Option<Crash>)
      modifies this`future
      ensures var outcome := if header.None? then Crashed(BadMessage)
                             else Resolve(old(State(true)), ParsedChunks(header.value, SlotPayloads(chunks)));
        && (crash.None? ==> outcome == Next(State(false)))
        && (crash.Some? ==> outcome == Crashed(crash.value))
    {
      if header.None? { return Some(BadMessage); }
      var decoded := ParseChunks(header.value.chunkIndex, header.value.metas, SlotPayloads(chunks));
      crash := SetResult(decoded);
    }

    /** A chunk frame: the chunk is inserted, and the last one completes the reply. */
    method TakeChunk(data: seq<Byte>, chunkIdx: int) returns (crash: Option<Crash>, finished: bool)
      modifies this`chunks, this`availCnt, this`future
      ensures Step(old(State(true)), ChunkIn(chunkIdx, data)) ==
        if crash.Some? then Crashed(crash.value) else Next(State(!finished))
    {
      crash, finished := InsertChunk(data, chunkIdx);
      if crash.None? && finished { crash := Finish(); }
    }

    /** A result frame: the header of a chunked reply, or a whole message, which completes the reply. */
    method TakeResult(header: ReplyHeader, payload: seq<Byte>) returns (crash: Option<Crash>, finished: bool)
      modifies this`header, this`chunks, this`numChunk, this`future
      ensures Step(old(State(true)), HeaderIn(header, payload)) ==
        if crash.Some? then Crashed(crash.value) else Next(State(!finished))
    {
      finished := header.chunkIndex == 0;
      if finished {
        var decoded := ParseSingle(header.metas, payload);
        crash := SetResult(decoded);
      } else {
        crash := None;
        this.header := Some(header);
        InitChunks(header.chunkIndex);
      }
    }
  }

  class WebsocketClient {
    /** `_rpc_id_to_pending` */
    var pending: map<int, PendingReply>
    /** Every reply object a call was ever given. */
    ghost var issued: map<int, PendingReply>
    /** The replies as values. */
    ghost var view: map<int, Reply>

    constructor ()
      ensures Valid() && issued == map[] && pending == map[] && view == map[]
    {
      pending, issued, view := map[], map[], map[];
    }

    ghost predicate Valid()
      reads this, issued.Values
    {
      && (forall id :: id in issued ==> issued[id].rpcId == id)
      && (forall id :: id in pending ==> id in issued && pending[id] == issued[id])
      && view.Keys == issued.Keys
      && (forall id :: id in issued ==> view[id] == issued[id].State(id in pending))
    }

    /** `remote_json_call` up to the point where it waits; call ids are never reused. */
    method AddPending(id: int) returns (reply: PendingReply)
      requires Valid() && id !in issued
      modifies this
      ensures Valid() && fresh(reply)
      ensures issued == old(issued)[id := reply]
      ensures Dispatch(old(view), Called(id)) == Running(view)
    {
      reply := new PendingReply(id);
      pending := pending[id := reply];
      issued := issued[id := reply];
      view := view[id := CALLED];
    }

    /** What is known of a reply in the dictionary, and how it can change without touching another one. */
    lemma PendingIsIssued(id: int)
      requires Valid() && id in pending
      ensures id in issued && pending[id] == issued[id] && view[id] == pending[id].State(true)
      ensures forall k :: k in issued && k != id ==> issued[k] != pending[id]
    {
    }

    /** A result frame. */
    method OnRpcFrame(id: int, header: ReplyHeader, payload: seq<Byte>) returns (crash: Option<Crash>)
      requires Valid()
      modifies this`pending, this`view, pending.Values
      ensures Valid()
      ensures crash.Some? ==> Dispatch(old(view), Incoming(id, HeaderIn(header, payload))) == Died(crash.value)
      ensures crash.None? ==> Dispatch(old(view), Incoming(id, HeaderIn(header, payload))) == Running(view)
    {
      crash := None;
      if id !in pending { return; }
      PendingIsIssued(id);
      var reply, finished := pending[id], false;
      crash, finished := reply.TakeResult(header, payload);
      if finished && crash.None? { pending := pending - {id}; }
      view := view[id := reply.State(id in pending)];
      forall k | k in issued && k != id ensures view[k] == issued[k].State(k in pending) {
        assert issued[k] != reply && view[k] == old(view)[k];
      }
    }

    /** A chunk frame. */
    method OnChunkFrame(encId: nat, encIndex: nat, payload: seq<Byte>) returns (crash: Option<Crash>)
      requires Valid()
      modifies this`pending, this`view, pending.Values
      ensures Valid()
      ensures crash.Some? ==>
        Dispatch(old(view), Incoming(DecodeUint(encId), ChunkIn(DecodeUint(encIndex), payload))) == Died(crash.value)
      ensures crash.None? ==>
        Dispatch(old(view), Incoming(DecodeUint(encId), ChunkIn(DecodeUint(encIndex), payload))) == Running(view)
    {
      crash := None;
      var id := DecodeUint(encId);
      if id !in pending { return; }
      PendingIsIssued(id);
      var reply, finished := pending[id], false;
      crash, finished := reply.TakeChunk(payload, DecodeUint(encIndex));
      if finished { pending := pending - {id}; }
      view := view[id := reply.State(id in pending)];
      forall k | k in issued && k != id ensures view[k] == issued[k].State(k in pending) {
        assert issued[k] != reply && view[k] == old(view)[k];
      }
    }

    /** An error frame: the future fails, the reply stays in the dictionary. */
    method OnErrorFrame(id: int) returns (crash: Option<Crash>)
      requires Valid()
      modifies this`view, pending.Values
      ensures Valid()
      ensures crash.Some? ==> Dispatch(old(view), Incoming(id, ErrorIn)) == Died(crash.value)
      ensures crash.None? ==> Dispatch(old(view), Incoming(id, ErrorIn)) == Running(view)
    {
      crash := None;
      if id !in pending { return; }
      PendingIsIssued(id);
      if !pending[id].future.Waiting? { return Some(ResolvedTwice); }
      pending[id].future := RemoteError;
      view := view[id := pending[id].State(true)];
    }

    /** `_rpc_timeout_callback`, which holds on to the reply object itself. */
    method RpcTimeoutCallback(reply: PendingReply)
      requires Valid() && reply.rpcId in issued && issued[reply.rpcId] == reply
      modifies this`pending, this`view, reply
      ensures Valid()
      ensures Dispatch(old(view), Incoming(reply.rpcId, TimeoutIn)) == Running(view)
    {
      ghost var before := view[reply.rpcId];
      if reply.future.Waiting? {
        reply.future := TimedOut;
        pending := pending - {reply.rpcId};
      }
      view := view[reply.rpcId := reply.State(reply.rpcId in pending)];
      assert Step(before, TimeoutIn) == Next(view[reply.rpcId]);
      forall k | k in issued && k != reply.rpcId ensures view[k] == issued[k].State(k in pending) {
        assert issued[k] != reply && view[k] == old(view)[k];
      }
    }

    /** The task that awaits the future in `remote_json_call` is cancelled: so is the future, and nothing
        takes the reply out of the dictionary. */
    method CancelCaller(reply: PendingReply)
      requires Valid() && reply.rpcId in issued && issued[reply.rpcId] == reply
      modifies this`view, reply
      ensures Valid()
      ensures Dispatch(old(view), Incoming(reply.rpcId, CancelIn)) == Running(view)
    {
      ghost var before := view[reply.rpcId];
      if reply.future.Waiting? { reply.future := Cancelled; }
      view := view[reply.rpcId := reply.State(reply.rpcId in pending)];
      assert Step(before, CancelIn) == Next(view[reply.rpcId]);
      forall k | k in issued && k != reply.rpcId ensures view[k] == issued[k].State(k in pending) {
        assert issued[k] != reply && view[k] == old(view)[k];
      }
    }
  }
}
