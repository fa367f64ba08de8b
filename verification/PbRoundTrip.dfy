/**
 Any number of calls, each cut with its own chunk size, sent one after another through one decoder.
 */
module PbRoundTrip {
  import opened Bytes
  import opened PbStream

  /** A completed call: its arguments, its key, and the flags of the frame that completed it. */
  datatype Reply = Reply(args: seq<Arg>, key: string, flags: nat)

  /** What a stream of frames gives: for every frame nothing or a completed call. */
  datatype Fed = Fed(outs: seq<Option<Reply>>, st: Decoder) | Broken

  /** `generator`: the decoder is called on every frame and cleared after every completed call. */
  function Feed(st: Decoder, frames: seq<Frame>, fill: Byte): Fed
    decreases |frames|
  {
    if frames == [] then Fed([], st)
    else match Step(st, frames[0], fill)
      case Raised => Broken
      case More(st') => Prefix([None], Feed(st', frames[1..], fill))
      case Done(args, key, st') => Prefix([Some(Reply(args, key, frames[0].flags))],
          Feed(Cleared(st'), frames[1..], fill))
  }

  /** `clear` */
  function Cleared(st: Decoder): Decoder {
    Decoder([], 0, st.dtype, false, "", [], [])
  }

  lemma FeedHead(st: Decoder, f: Frame, later: seq<Frame>, fill: Byte)
    ensures var r := Step(st, f, fill);
      Feed(st, [f] + later, fill) ==
        if r.Raised? then Broken
        else if r.More? then Prefix([None], Feed(r.st, later, fill))
        else Prefix([Some(Reply(r.args, r.key, f.flags))], Feed(Cleared(r.st), later, fill))
  {
    assert ([f] + later)[1..] == later;
  }

  lemma SplitHead<T>(all: seq<T>, k: nat, rest: seq<T>)
    requires k < |all|
    ensures all[k..] + rest == [all[k]] + (all[k + 1..] + rest)
  {
  }

  function Prefix(outs: seq<Option<Reply>>, fed: Fed): Fed {
    if fed.Fed? then Fed(outs + fed.outs, fed.st) else fed
  }

  lemma PrefixPrefix(a: seq<Option<Reply>>, b: seq<Option<Reply>>, fed: Fed)
    ensures Prefix(a, Prefix(b, fed)) == Prefix(a + b, fed)
  {
    if fed.Fed? { Assoc(a, b, fed.outs); }
  }

  function Nones(n: nat): seq<Option<Reply>> {
    seq(n, _ => None)
  }

  lemma PrefixNone(n: nat, outs: seq<Option<Reply>>, fed: Fed)
    ensures Prefix([None], Prefix(Nones(n) + outs, fed)) == Prefix(Nones(n + 1) + outs, fed)
  {
    PrefixPrefix([None], Nones(n) + outs, fed);
    assert [None] + (Nones(n) + outs) == Nones(n + 1) + outs;
  }

  // ---------------------------------------------------------------- one argument

  /** The decoder holds the first `n` bytes of `a`, when `before` was complete already. */
  predicate Holds(st: Decoder, before: seq<Arg>, a: Arg, key: string, n: nat, fill: Byte)
    requires n <= |a.data|
  {
    && st.dtype == DTypeOf(a) && st.isNp == a.NdArray? && st.funcKey == key && st.shape == ShapeOf(a)
    && if a.NdArray? then st.args == before + [a.(data := a.data[..n] + Empty(|a.data| - n, fill))]
       else st.args == before && Concat(st.datas) == a.data[..n]
  }

  /** And the next piece goes to position `n`. */
  predicate Receiving(st: Decoder, before: seq<Arg>, a: Arg, key: string, n: nat, fill: Byte) {
    n <= |a.data| && Holds(st, before, a, key, n, fill) && (a.NdArray? ==> st.accum == n)
  }

  /** Before frame `k`: whatever the other fields hold when it is the first. */
  predicate Ready(st: Decoder, before: seq<Arg>, a: Arg, key: string, per: nat, k: nat, fill: Byte) {
    if k == 0 then st.args == before else Receiving(st, before, a, key, Offset(per, k), fill)
  }

  /** Where the next piece goes; the last piece may be shorter. */
  lemma PieceFits(a: Arg, per: nat, k: nat)
    requires per > 0 && k < NumChunk(|a.data|, per)
    ensures var n := Offset(per, k);
      && n <= |a.data|
      && (k + 1 < NumChunk(|a.data|, per) ==> n + per <= |a.data|)
      && (k + 1 == NumChunk(|a.data|, per) ==> |a.data| <= n + per)
      && Piece(a.data, per, k) == a.data[n..Min(n + per, |a.data|)]
      && a.data[..n] + Piece(a.data, per, k) == a.data[..Min(n + per, |a.data|)]
  {
    NumChunkCovers(|a.data|, per, k);
    NumChunkCovers(|a.data|, per, k + 1);
    OffsetIsProduct(per, k);
    OffsetIsProduct(per, k + 1);
    TakeThenSlice(a.data, k * per, Min(k * per + per, |a.data|));
  }

  /** The array so far, after one more piece. */
  lemma WritePiece(data: seq<Byte>, n: nat, m: nat, fill: Byte)
    requires n <= m <= |data|
    ensures Write(data[..n] + Empty(|data| - n, fill), n, data[n..m]) == Some(data[..m] + Empty(|data| - m, fill))
  {
    var view := data[..n] + Empty(|data| - n, fill);
    TakeThenSlice(data, n, m);
    assert view[..n] == data[..n];
    assert view[m..] == Empty(|data| - m, fill);
  }

  /** What the first frame of an argument sets up. */
  lemma FirstFrame(st: Decoder, before: seq<Arg>, a: Arg, f: Frame, fill: Byte)
    requires ValidArg(a) && st.args == before
    requires f.chunkId == 0 && f.dtype == DTypeOf(a) && f.shape == ShapeOf(a)
    ensures Receiving(BeginArg(st, f, fill), before, a, f.funcKey, 0, fill)
  {
    assert a.data[..0] + Empty(|a.data|, fill) == Empty(|a.data|, fill);
  }

  /** What a frame adds to the argument it belongs to. */
  lemma AbsorbBytes(st: Decoder, before: seq<Arg>, a: Arg, key: string, f: Frame, n: nat, m: nat, fill: Byte)
    requires Receiving(st, before, a, key, n, fill) && n <= m <= |a.data| && f.data == a.data[n..m]
    ensures var r := Absorb(st, f);
      r.Some? && Holds(r.value, before, a, key, m, fill) && r.value.accum == st.accum
  {
    TakeThenSlice(a.data, n, m);
    if a.NdArray? {
      WritePiece(a.data, n, m, fill);
      var last' := a.(data := a.data[..m] + Empty(|a.data| - m, fill));
      assert st.args[|st.args| - 1 := last'] == before + [last'];
    } else {
      ConcatSnoc(st.datas, f.data);
    }
  }

  lemma AbsorbPiece(st: Decoder, before: seq<Arg>, a: Arg, argId: nat, numArgs: nat, key: string, flags: nat,
      per: nat, k: nat, fill: Byte)
    requires per > 0 && ValidArg(a) && k < NumChunk(|a.data|, per)
    requires Ready(st, before, a, key, per, k, fill)
    ensures var f, m := ArgFrame(a, argId, numArgs, key, flags, per, k), Min(Offset(per, k) + per, |a.data|);
      var r := Absorb(BeginArg(st, f, fill), f);
      r.Some? && Holds(r.value, before, a, key, m, fill) && (a.NdArray? ==> r.value.accum == Offset(per, k))
  {
    var f := ArgFrame(a, argId, numArgs, key, flags, per, k);
    PieceFits(a, per, k);
    if k == 0 { FirstFrame(st, before, a, f, fill); }
    AbsorbBytes(BeginArg(st, f, fill), before, a, key, f, Offset(per, k), Min(Offset(per, k) + per, |a.data|), fill);
  }

  lemma StepInside(st: Decoder, before: seq<Arg>, a: Arg, argId: nat, numArgs: nat, key: string, flags: nat, per: nat,
      k: nat, fill: Byte)
    requires per > 0 && ValidArg(a) && k + 1 < NumChunk(|a.data|, per)
    requires Ready(st, before, a, key, per, k, fill)
    ensures var r := Step(st, ArgFrame(a, argId, numArgs, key, flags, per, k), fill);
      r.More? && Receiving(r.st, before, a, key, Offset(per, k + 1), fill)
  {
    AbsorbPiece(st, before, a, argId, numArgs, key, flags, per, k, fill);
    PieceFits(a, per, k);
    assert Offset(per, k + 1) == Offset(per, k) + per == Min(Offset(per, k) + per, |a.data|);
  }

  lemma StepLast(st: Decoder, before: seq<Arg>, a: Arg, argId: nat, numArgs: nat, key: string, flags: nat, per: nat,
      k: nat, fill: Byte)
    requires per > 0 && ValidArg(a) && k + 1 == NumChunk(|a.data|, per)
    requires Ready(st, before, a, key, per, k, fill)
    ensures var r := Step(st, ArgFrame(a, argId, numArgs, key, flags, per, k), fill);
      if argId + 1 == numArgs then r.Done? && r.args == before + [a] && r.key == key && r.st.args == []
      else r.More? && r.st.args == before + [a]
  {
    AbsorbPiece(st, before, a, argId, numArgs, key, flags, per, k, fill);
    PieceFits(a, per, k);
    assert a.data[..|a.data|] == a.data;
    EmptySuffix(a.data);
    assert Empty(0, fill) == [];
  }

  /** The output at the last frame of an argument. */
  function LastOut(before: seq<Arg>, a: Arg, argId: nat, numArgs: nat, key: string, flags: nat): Option<Reply> {
    if argId + 1 == numArgs then Some(Reply(before + [a], key, flags)) else None
  }

  lemma FeedLast(st: Decoder, before: seq<Arg>, a: Arg, argId: nat, numArgs: nat, key: string, flags: nat, per: nat,
      k: nat, rest: seq<Frame>, fill: Byte) returns (st': Decoder)
    requires per > 0 && ValidArg(a) && k + 1 == NumChunk(|a.data|, per)
    requires Ready(st, before, a, key, per, k, fill)
    ensures st'.args == if argId + 1 == numArgs then [] else before + [a]
    ensures Feed(st, [ArgFrame(a, argId, numArgs, key, flags, per, k)] + rest, fill)
      == Prefix([LastOut(before, a, argId, numArgs, key, flags)], Feed(st', rest, fill))
  {
    var f := ArgFrame(a, argId, numArgs, key, flags, per, k);
    FeedHead(st, f, rest, fill);
    StepLast(st, before, a, argId, numArgs, key, flags, per, k, fill);
    var r := Step(st, f, fill);
    st' := if r.Done? then Cleared(r.st) else r.st;
  }

  lemma FeedInside(st: Decoder, before: seq<Arg>, a: Arg, argId: nat, numArgs: nat, key: string, flags: nat, per: nat,
      k: nat, rest: seq<Frame>, fill: Byte) returns (st': Decoder)
    requires per > 0 && ValidArg(a) && k + 1 < NumChunk(|a.data|, per)
    requires Ready(st, before, a, key, per, k, fill)
    ensures Ready(st', before, a, key, per, k + 1, fill)
    ensures Feed(st, [ArgFrame(a, argId, numArgs, key, flags, per, k)] + rest, fill)
        == Prefix([None], Feed(st', rest, fill))
  {
    var f := ArgFrame(a, argId, numArgs, key, flags, per, k);
    FeedHead(st, f, rest, fill);
    StepInside(st, before, a, argId, numArgs, key, flags, per, k, fill);
    st' := Step(st, f, fill).st;
  }

  /** The frames of one argument, from frame `k` on, with `rest` behind them, take the decoder from
      `st` to `st'`: no output but, for the last argument, the call. */
  predicate ArgFed(st: Decoder, st': Decoder, before: seq<Arg>, a: Arg, argId: nat, numArgs: nat, key: string,
      flags: nat, per: nat, k: nat, rest: seq<Frame>, fill: Byte)
    requires per > 0 && k < NumChunk(|a.data|, per)
  {
    && st'.args == (if argId + 1 == numArgs then [] else before + [a])
    && Feed(st, ArgFrames(a, argId, numArgs, key, flags, per)[k..] + rest, fill)
       == Prefix(Nones(NumChunk(|a.data|, per) - k - 1) + [LastOut(before, a, argId, numArgs, key, flags)],
           Feed(st', rest, fill))
  }

  lemma ArgFedBefore(st: Decoder, st1: Decoder, st': Decoder, before: seq<Arg>, a: Arg, argId: nat, numArgs: nat,
      key: string, flags: nat, per: nat, k: nat, later: seq<Frame>, rest: seq<Frame>, fill: Byte)
    requires per > 0 && k + 1 < NumChunk(|a.data|, per)
    requires later == ArgFrames(a, argId, numArgs, key, flags, per)[k + 1..] + rest
    requires Feed(st, [ArgFrame(a, argId, numArgs, key, flags, per, k)] + later, fill)
        == Prefix([None], Feed(st1, later, fill))
    requires ArgFed(st1, st', before, a, argId, numArgs, key, flags, per, k + 1, rest, fill)
    ensures ArgFed(st, st', before, a, argId, numArgs, key, flags, per, k, rest, fill)
  {
    SplitHead(ArgFrames(a, argId, numArgs, key, flags, per), k, rest);
    PrefixNone(NumChunk(|a.data|, per) - k - 2, [LastOut(before, a, argId, numArgs, key, flags)],
        Feed(st', rest, fill));
  }

  lemma ArgFedLast(st: Decoder, st': Decoder, before: seq<Arg>, a: Arg, argId: nat, numArgs: nat, key: string,
      flags: nat, per: nat, k: nat, rest: seq<Frame>, fill: Byte)
    requires per > 0 && k + 1 == NumChunk(|a.data|, per)
    requires st'.args == if argId + 1 == numArgs then [] else before + [a]
    requires Feed(st, [ArgFrame(a, argId, numArgs, key, flags, per, k)] + rest, fill)
      == Prefix([LastOut(before, a, argId, numArgs, key, flags)], Feed(st', rest, fill))
    ensures ArgFed(st, st', before, a, argId, numArgs, key, flags, per, k, rest, fill)
  {
    SplitHead(ArgFrames(a, argId, numArgs, key, flags, per), k, rest);
    EmptyPrefix(rest);
    EmptyPrefix([LastOut(before, a, argId, numArgs, key, flags)]);
  }

  lemma {:induction false} FeedArg(st: Decoder, before: seq<Arg>, a: Arg, argId: nat, numArgs: nat, key: string,
      flags: nat, per: nat, k: nat, rest: seq<Frame>, fill: Byte) returns (st': Decoder)
    requires per > 0 && ValidArg(a) && k < NumChunk(|a.data|, per)
    requires Ready(st, before, a, key, per, k, fill)
    ensures ArgFed(st, st', before, a, argId, numArgs, key, flags, per, k, rest, fill)
    decreases NumChunk(|a.data|, per) - k
  {
    if k + 1 < NumChunk(|a.data|, per) {
      var later := ArgFrames(a, argId, numArgs, key, flags, per)[k + 1..] + rest;
      var st1 := FeedInside(st, before, a, argId, numArgs, key, flags, per, k, later, fill);
      st' := FeedArg(st1, before, a, argId, numArgs, key, flags, per, k + 1, rest, fill);
      ArgFedBefore(st, st1, st', before, a, argId, numArgs, key, flags, per, k, later, rest, fill);
    } else {
      st' := FeedLast(st, before, a, argId, numArgs, key, flags, per, k, rest, fill);
      ArgFedLast(st, st', before, a, argId, numArgs, key, flags, per, k, rest, fill);
    }
  }

  // ---------------------------------------------------------------- calls

  /** One call as the client sends it. */
  datatype Call = Call(args: seq<Arg>, key: string, flags: nat, chunkSize: nat)

  /** The client always sends at least the skeleton, and no chunk is empty by choice. */
  predicate ValidCall(c: Call) {
    c.args != [] && c.chunkSize > 0 && forall i :: 0 <= i < |c.args| ==> ValidArg(c.args[i])
  }

  /** The output of one argument's frames: nothing, and the call at the end of the last argument. */
  function ArgOuts(c: Call, i: nat): seq<Option<Reply>>
    requires ValidCall(c) && i < |c.args|
  {
    Nones(NumChunk(|c.args[i].data|, c.chunkSize) - 1)
        + [if i + 1 == |c.args| then Some(Reply(c.args, c.key, c.flags)) else None]
  }

  /** The output for the arguments from `i` on. */
  function CallOuts(c: Call, i: nat): seq<Option<Reply>>
    requires ValidCall(c) && i <= |c.args|
    decreases |c.args| - i
  {
    if i == |c.args| then [] else ArgOuts(c, i) + CallOuts(c, i + 1)
  }

  lemma FeedCallArg(st: Decoder, c: Call, i: nat, rest: seq<Frame>, fill: Byte) returns (st': Decoder)
    requires ValidCall(c) && i < |c.args| && st.args == c.args[..i]
    ensures st'.args == if i + 1 == |c.args| then [] else c.args[..i + 1]
    ensures Feed(st, ArgFrames(c.args[i], i, |c.args|, c.key, c.flags, c.chunkSize) + rest, fill)
      == Prefix(ArgOuts(c, i), Feed(st', rest, fill))
  {
    var a, before := c.args[i], c.args[..i];
    assert before + [a] == c.args[..i + 1];
    assert c.args[..|c.args|] == c.args;
    var mine := ArgFrames(a, i, |c.args|, c.key, c.flags, c.chunkSize);
    assert mine[0..] == mine;
    st' := FeedArg(st, before, a, i, |c.args|, c.key, c.flags, c.chunkSize, 0, rest, fill);
  }

  lemma {:induction false} FeedCall(st: Decoder, c: Call, i: nat, rest: seq<Frame>, fill: Byte) returns (st': Decoder)
    requires ValidCall(c) && i < |c.args| && st.args == c.args[..i]
    ensures st'.args == []
    ensures Feed(st, FramesFrom(c.args, i, c.key, c.flags, c.chunkSize) + rest, fill)
        == Prefix(CallOuts(c, i), Feed(st', rest, fill))
    decreases |c.args| - i
  {
    var later := FramesFrom(c.args, i + 1, c.key, c.flags, c.chunkSize);
    Assoc(ArgFrames(c.args[i], i, |c.args|, c.key, c.flags, c.chunkSize), later, rest);
    var st1 := FeedCallArg(st, c, i, later + rest, fill);
    if i + 1 < |c.args| {
      st' := FeedCall(st1, c, i + 1, rest, fill);
      PrefixPrefix(ArgOuts(c, i), CallOuts(c, i + 1), Feed(st', rest, fill));
    } else {
      EmptyPrefix(rest);
      EmptySuffix(ArgOuts(c, i));
      st' := st1;
    }
  }

  function FramesOf(c: Call): seq<Frame>
    requires ValidCall(c)
  {
    FramesFrom(c.args, 0, c.key, c.flags, c.chunkSize)
  }

  function CallFrames(calls: seq<Call>): seq<Frame>
    requires forall i :: 0 <= i < |calls| ==> ValidCall(calls[i])
  {
    if calls == [] then [] else FramesOf(calls[0]) + CallFrames(calls[1..])
  }

  function AllOuts(calls: seq<Call>): seq<Option<Reply>>
    requires forall i :: 0 <= i < |calls| ==> ValidCall(calls[i])
  {
    if calls == [] then [] else CallOuts(calls[0], 0) + AllOuts(calls[1..])
  }

  /** The stream is lossless: for any sequence of calls, each with its own chunk size, one decoder
      gives every call's arguments and key at the call's last frame, and nothing at any other. */
  lemma {:induction false} StreamRoundTrip(st: Decoder, calls: seq<Call>, fill: Byte)
    requires Idle(st) && forall i :: 0 <= i < |calls| ==> ValidCall(calls[i])
    ensures Feed(st, CallFrames(calls), fill).Fed? && Feed(st, CallFrames(calls), fill).outs == AllOuts(calls)
    decreases |calls|
  {
    if calls != [] {
      assert calls[0].args[..0] == [];
      var st' := FeedCall(st, calls[0], 0, CallFrames(calls[1..]), fill);
      StreamRoundTrip(st', calls[1..], fill);
    }
  }

  /** The completed calls among the outputs. */
  function Completed(outs: seq<Option<Reply>>): seq<Reply> {
    if outs == [] then [] else (if outs[0].Some? then [outs[0].value] else []) + Completed(outs[1..])
  }

  lemma {:induction false} CompletedAppend(a: seq<Option<Reply>>, b: seq<Option<Reply>>)
    ensures Completed(a + b) == Completed(a) + Completed(b)
  {
    if a == [] {
      assert a + b == b;
    } else {
      assert (a + b)[1..] == a[1..] + b;
      CompletedAppend(a[1..], b);
      Assoc(if a[0].Some? then [a[0].value] else [], Completed(a[1..]), Completed(b));
    }
  }

  lemma {:induction false} CompletedNones(n: nat)
    ensures Completed(Nones(n)) == []
  {
    if n > 0 {
      assert Nones(n)[1..] == Nones(n - 1);
      CompletedNones(n - 1);
    }
  }

  lemma {:induction false} CompletedCall(c: Call, i: nat)
    requires ValidCall(c) && i < |c.args|
    ensures Completed(CallOuts(c, i)) == [Reply(c.args, c.key, c.flags)]
    decreases |c.args| - i
  {
    var nones := Nones(NumChunk(|c.args[i].data|, c.chunkSize) - 1);
    var out := [if i + 1 == |c.args| then Some(Reply(c.args, c.key, c.flags)) else None];
    CompletedNones(|nones|);
    CompletedAppend(nones, out);
    CompletedAppend(nones + out, CallOuts(c, i + 1));
    assert out[1..] == [];
    if i + 1 < |c.args| { CompletedCall(c, i + 1); }
  }

  /** Exactly the calls that were sent come out, in order. */
  lemma {:induction false} CompletedCalls(calls: seq<Call>)
    requires forall i :: 0 <= i < |calls| ==> ValidCall(calls[i])
    ensures Completed(AllOuts(calls)) == seq(|calls|, i requires 0 <= i < |calls| =>
      Reply(calls[i].args, calls[i].key, calls[i].flags))
    decreases |calls|
  {
    if calls != [] {
      CompletedCall(calls[0], 0);
      CompletedAppend(CallOuts(calls[0], 0), AllOuts(calls[1..]));
      CompletedCalls(calls[1..]);
    }
  }
}
