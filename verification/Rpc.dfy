/**
 Whole RPC payloads over the frame stream, and the relay that forwards a call through servers.
 */
module Rpc {
  import opened Bytes
  import opened PbStream
  import opened PbRoundTrip
  import opened Skeleton

  const JSON_INDEX_KEY := "__jsonarray_index"

  /** `extract_arrays_from_data` as the stream senders call it. */
  const PLACEHOLDERS := Mode("", false)

  /** A serializer; its format is not part of this model. */
  datatype Codec = Codec(dumps: Py -> seq<Byte>, loads: seq<Byte> -> Py)

  /** The serializer that the flags of a message pick. */
  type Codecs = nat -> Codec

  /** The serializer carries this value: JSON, for one, carries no tuple. */
  predicate Carries(codec: Codec, x: Py) {
    codec.loads(codec.dumps(x)) == x
  }

  // ---------------------------------------------------------------- end to end

  datatype Payload = Payload(data: Py, key: string, flags: nat, chunkSize: nat)

  /** A payload that can be sent: shaped arrays, nothing that separation loses, and a skeleton that the
      serializer carries. */
  predicate Sendable(p: Payload, codecs: Codecs) {
    && p.chunkSize > 0
    && SurvivesAsRoot(p.data, PLACEHOLDERS, JSON_INDEX_KEY)
    && Carries(codecs(p.flags), Skel(p.data, 0, PLACEHOLDERS))
    && forall i :: 0 <= i < |Leaves(p.data)| ==> ValidArg(Leaves(p.data)[i])
  }

  /** Extract, and append the serialized skeleton to the arrays. */
  function ToCall(p: Payload, codecs: Codecs): Call {
    Call(Leaves(p.data) + [BytesArg(codecs(p.flags).dumps(Skel(p.data, 0, PLACEHOLDERS)))], p.key, p.flags, p.chunkSize)
  }

  /** What the receiver makes of a completed call. */
  function Restore(r: Reply, codecs: Codecs): Option<Py> {
    if r.args == [] || !r.args[|r.args| - 1].BytesArg? then None
    else Put(r.args[..|r.args| - 1], codecs(r.flags).loads(r.args[|r.args| - 1].data), JSON_INDEX_KEY)
  }

  /** The completed call as the receiver gets it. */
  function Received(c: Call): Reply {
    Reply(c.args, c.key, c.flags)
  }

  lemma ToCallIsValid(p: Payload, codecs: Codecs)
    requires Sendable(p, codecs)
    ensures ValidCall(ToCall(p, codecs))
  {
  }

  lemma RestoreRoundTrip(p: Payload, codecs: Codecs)
    requires Sendable(p, codecs)
    ensures Restore(Received(ToCall(p, codecs)), codecs) == Some(p.data)
  {
    var args := ToCall(p, codecs).args;
    assert args[..|args| - 1] == Leaves(p.data);
    SeparationRoundTrip(Leaves(p.data), p.data, PLACEHOLDERS, JSON_INDEX_KEY);
  }

  function ToCalls(payloads: seq<Payload>, codecs: Codecs): seq<Call> {
    seq(|payloads|, i requires 0 <= i < |payloads| => ToCall(payloads[i], codecs))
  }

  /** End to end: any sequence of payloads, each with its own serializer and chunk size, cut into frames,
      joined into one stream, reassembled by one decoder and put back together, arrives unchanged and in
      order; the outputs at the single frames are those of `AllOuts`, so each arrives at its last frame. */
  lemma PayloadsRoundTrip(payloads: seq<Payload>, codecs: Codecs, st: Decoder, fill: Byte)
    requires Idle(st) && forall i :: 0 <= i < |payloads| ==> Sendable(payloads[i], codecs)
    ensures var calls := ToCalls(payloads, codecs);
      && (forall i :: 0 <= i < |calls| ==> ValidCall(calls[i]))
      && Feed(st, CallFrames(calls), fill).Fed?
      && Feed(st, CallFrames(calls), fill).outs == AllOuts(calls)
      && var done := Completed(AllOuts(calls));
      && |done| == |payloads|
      && forall i :: 0 <= i < |done| ==>
        && Restore(done[i], codecs) == Some(payloads[i].data)
        && done[i].key == payloads[i].key && done[i].flags == payloads[i].flags
  {
    var calls := ToCalls(payloads, codecs);
    forall i | 0 <= i < |calls| ensures ValidCall(calls[i]) { ToCallIsValid(payloads[i], codecs); }
    StreamRoundTrip(st, calls, fill);
    CompletedCalls(calls);
    forall i | 0 <= i < |payloads| ensures Restore(Received(calls[i]), codecs) == Some(payloads[i].data) {
      RestoreRoundTrip(payloads[i], codecs);
    }
  }

  // ---------------------------------------------------------------- the first call of a stream

  /** `_extract_chunked_data`: reads frames up to the end of the first call; the rest stays in the iterator. */
  function FirstCall(st: Decoder, frames: seq<Frame>, fill: Byte): (r: Option<(Reply, nat)>)
    ensures r.Some? ==> 0 < r.value.1 <= |frames|
    decreases |frames|
  {
    if frames == [] then None
    else match Step(st, frames[0], fill)
      case Raised => None
      case Done(args, key, _) => Some((Reply(args, key, frames[0].flags), 1))
      case More(st') =>
        match FirstCall(st', frames[1..], fill)
        case None => None
        case Some((reply, n)) => Some((reply, n + 1))
  }

  /** A request iterator: what has not been read from it yet. */
  class FrameIterator {
    var frames: seq<Frame>

    constructor (frames: seq<Frame>)
      ensures this.frames == frames
    {
      this.frames := frames;
    }
  }

  function Later(r: Option<(Reply, nat)>, n: nat): Option<(Reply, nat)> {
    if r.None? then None else Some((r.value.0, r.value.1 + n))
  }

  /** How the search for the first call goes on after one frame. */
  lemma FirstCallHead(st: Decoder, frames: seq<Frame>, n: nat, fill: Byte)
    requires frames != []
    ensures var r, first := Step(st, frames[0], fill), Later(FirstCall(st, frames, fill), n);
      if r.Raised? then first == None
      else if r.Done? then first == Some((Reply(r.args, r.key, frames[0].flags), n + 1))
      else first == Later(FirstCall(r.st, frames[1..], fill), n + 1)
  {
    match Step(st, frames[0], fill)
    case Raised =>
    case Done(_, _, _) =>
    case More(st') =>
      var later := FirstCall(st', frames[1..], fill);
      assert FirstCall(st, frames, fill) == Later(later, 1);
  }

  /** `_extract_chunked_data` on a shared iterator: exactly the frames of the first call are taken
      from it, so that the real handler or the next server gets everything behind them. */
  method ExtractChunkedData(requests: FrameIterator, fill: Byte) returns (r: Option<Reply>)
    modifies requests
    ensures r.None? <==> FirstCall(NEW_DECODER, old(requests.frames), fill).None?
    ensures r.Some? ==>
      var first := FirstCall(NEW_DECODER, old(requests.frames), fill).value;
      r.value == first.0 && requests.frames == old(requests.frames)[first.1..]
  {
    var fromStream := new FromBufferStream(fill);
    ghost var all, first, n: nat := requests.frames, FirstCall(NEW_DECODER, requests.frames, fill), 0;
    while requests.frames != []
      invariant fresh(fromStream) && fromStream.fill == fill
      invariant n <= |all| && requests.frames == all[n..]
      invariant first == Later(FirstCall(fromStream.State(), requests.frames, fill), n)
      decreases |requests.frames|
    {
      var f := requests.frames[0];
      FirstCallHead(fromStream.State(), requests.frames, n, fill);
      DropDrop(all, n, 1);
      requests.frames := requests.frames[1..];
      n := n + 1;
      var ok, res := fromStream.Call(f);
      if !ok { return None; }
      if res.Some? { return Some(Reply(res.value.0, res.value.1, f.flags)); }
    }
    r := None;
  }

  /** The index and value of the first completed call in a list of outputs. */
  function FirstSome(outs: seq<Option<Reply>>): (r: Option<(Reply, nat)>)
  {
    if outs == [] then None
    else if outs[0].Some? then Some((outs[0].value, 1))
    else match FirstSome(outs[1..]) case None => None case Some((reply, n)) => Some((reply, n + 1))
  }

  lemma {:induction false} FirstCallIsFirstOutput(st: Decoder, frames: seq<Frame>, rest: seq<Frame>, fill: Byte)
    requires Feed(st, frames, fill).Fed? && FirstSome(Feed(st, frames, fill).outs).Some?
    ensures FirstCall(st, frames + rest, fill) == FirstSome(Feed(st, frames, fill).outs)
    decreases |frames|
  {
    if frames != [] {
      assert (frames + rest)[1..] == frames[1..] + rest;
      var r := Step(st, frames[0], fill);
      if r.More? {
        var fed := Feed(r.st, frames[1..], fill);
        assert ([None] + fed.outs)[1..] == fed.outs;
        FirstCallIsFirstOutput(r.st, frames[1..], rest, fill);
      } else if r.Done? {
        assert Feed(st, frames, fill).outs[0] == Some(Reply(r.args, r.key, frames[0].flags));
      }
    }
  }

  lemma {:induction false} FirstAfterNones(n: nat, outs: seq<Option<Reply>>)
    requires FirstSome(outs).Some?
    ensures FirstSome(Nones(n) + outs) == Some((FirstSome(outs).value.0, FirstSome(outs).value.1 + n))
  {
    if n == 0 {
      assert Nones(0) + outs == outs;
    } else {
      assert (Nones(n) + outs)[1..] == Nones(n - 1) + outs;
      FirstAfterNones(n - 1, outs);
    }
  }

  lemma FramesOfOneArg(c: Call, i: nat, n: nat)
    requires ValidCall(c) && i < |c.args| && n == NumChunk(|c.args[i].data|, c.chunkSize)
    ensures |FramesFrom(c.args, i, c.key, c.flags, c.chunkSize)|
      == n + |FramesFrom(c.args, i + 1, c.key, c.flags, c.chunkSize)|
  {
  }

  lemma OutsOfOneArg(c: Call, i: nat, n: nat)
    requires ValidCall(c) && i < |c.args| && n == NumChunk(|c.args[i].data|, c.chunkSize)
    ensures n > 0 && CallOuts(c, i) ==
      if i + 1 < |c.args| then Nones(n) + CallOuts(c, i + 1) else Nones(n - 1) + [Some(Received(c))]
  {
    if i + 1 < |c.args| {
      assert ArgOuts(c, i) == Nones(n);
    } else {
      EmptySuffix(ArgOuts(c, i));
    }
  }

  lemma FirstOfOne(r: Reply)
    ensures FirstSome([Some(r)]) == Some((r, 1))
  {
  }

  lemma NoFramesBehind(c: Call)
    requires ValidCall(c)
    ensures FramesFrom(c.args, |c.args|, c.key, c.flags, c.chunkSize) == []
  {
  }

  /** How many frames the arguments from `i` on have. */
  function FrameCount(c: Call, i: nat): nat
    requires ValidCall(c) && i <= |c.args|
  {
    |FramesFrom(c.args, i, c.key, c.flags, c.chunkSize)|
  }

  lemma FirstOfNext(c: Call, i: nat, n: nat, later: seq<Option<Reply>>)
    requires ValidCall(c) && i + 1 < |c.args| && n == NumChunk(|c.args[i].data|, c.chunkSize)
    requires later == CallOuts(c, i + 1) && FirstSome(later) == Some((Received(c), FrameCount(c, i + 1)))
    ensures FirstSome(CallOuts(c, i)) == Some((Received(c), FrameCount(c, i)))
  {
    FramesOfOneArg(c, i, n);
    OutsOfOneArg(c, i, n);
    FirstBehind(CallOuts(c, i), n, later, Received(c), FrameCount(c, i + 1));
  }

  lemma FirstOfLast(c: Call, i: nat, n: nat)
    requires ValidCall(c) && i + 1 == |c.args| && n == NumChunk(|c.args[i].data|, c.chunkSize)
    ensures FirstSome(CallOuts(c, i)) == Some((Received(c), FrameCount(c, i)))
  {
    FramesOfOneArg(c, i, n);
    OutsOfOneArg(c, i, n);
    NoFramesBehind(c);
    FirstOfOne(Received(c));
    FirstBehind(CallOuts(c, i), n - 1, [Some(Received(c))], Received(c), 1);
  }

  lemma {:induction false} FirstOfCallOuts(c: Call, i: nat)
    requires ValidCall(c) && i < |c.args|
    ensures FirstSome(CallOuts(c, i)) == Some((Received(c), FrameCount(c, i)))
    decreases |c.args| - i
  {
    var n := NumChunk(|c.args[i].data|, c.chunkSize);
    if i + 1 < |c.args| {
      FirstOfCallOuts(c, i + 1);
      FirstOfNext(c, i, n, CallOuts(c, i + 1));
    } else {
      FirstOfLast(c, i, n);
    }
  }

  lemma FirstBehind(outs: seq<Option<Reply>>, n: nat, later: seq<Option<Reply>>, reply: Reply, at: nat)
    requires outs == Nones(n) + later && FirstSome(later) == Some((reply, at))
    ensures FirstSome(outs) == Some((reply, n + at))
  {
    FirstAfterNones(n, later);
  }

  /** A call, in front of any other frames: exactly its own frames are consumed. */
  lemma FirstCallConsumesItsFrames(st: Decoder, c: Call, rest: seq<Frame>, fill: Byte)
    requires Idle(st) && ValidCall(c)
    ensures FirstCall(st, FramesOf(c) + rest, fill) == Some((Received(c), |FramesOf(c)|))
  {
    assert c.args[..0] == [];
    EmptySuffix(FramesOf(c));
    var st' := FeedCall(st, c, 0, [], fill);
    EmptySuffix(CallOuts(c, 0));
    FirstOfCallOuts(c, 0);
    FirstCallIsFirstOutput(st, FramesOf(c), rest, fill);
  }
}
