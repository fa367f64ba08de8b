/**
 The gRPC stream format: arguments cut into frames, and the decoder object that puts them back
 together one frame at a time.
 */
module PbStream {
  import opened Bytes

  // ---------------------------------------------------------------- arguments and frames

  datatype NpType = UInt64 | UInt32 | UInt16 | UInt8 | Int64 | Int32 | Int16 | Int8 | Float64 | Float32 | Float16

  datatype ByteOrder = Native | LittleEndian | BigEndian | NotApplicable

  datatype DType = Np(ty: NpType, order: ByteOrder) | CustomBytes | Base64

  function ItemSize(ty: NpType): nat {
    match ty
    case UInt64 | Int64 | Float64 => 8
    case UInt32 | Int32 | Float32 => 4
    case UInt16 | Int16 | Float16 => 2
    case UInt8 | Int8 => 1
  }

  /** What can be sent: arrays, bytes objects and array buffers. */
  datatype Arg =
    | NdArray(dtype: DType, shape: seq<nat>, data: seq<Byte>)
    | BytesArg(data: seq<Byte>)
    | JsBuffer(data: seq<Byte>)

  /** The sender cannot view an array without dimensions as bytes. */
  predicate ValidArg(a: Arg) {
    a.NdArray? ==> a.dtype.Np? && a.shape != [] && |a.data| == ItemSize(a.dtype.ty) * Product(a.shape)
  }

  function DTypeOf(a: Arg): DType {
    match a
    case NdArray(dtype, _, _) => dtype
    case BytesArg(_) => CustomBytes
    case JsBuffer(_) => Base64
  }

  function ShapeOf(a: Arg): seq<nat> {
    if a.NdArray? then a.shape else []
  }

  /** `RemoteCallStream` */
  datatype Frame = Frame(numChunk: nat, chunkId: nat, numArgs: nat, argId: nat, dtype: DType,
                         funcKey: string, data: seq<Byte>, shape: seq<nat>, flags: nat)

  /** A Python slice `flat[i * per:(i + 1) * per]`. */
  function Piece(flat: seq<Byte>, per: nat, i: nat): seq<Byte> {
    flat[Min(i * per, |flat|)..Min(i * per + per, |flat|)]
  }

  /** At least one frame, so that empty data is announced too. */
  function NumChunk(length: nat, per: nat): nat
    requires per > 0
  {
    if DivUp(length, per) == 0 then 1 else DivUp(length, per)
  }

  lemma NumChunkCovers(length: nat, per: nat, k: nat)
    requires per > 0 && k <= NumChunk(length, per)
    ensures k == NumChunk(length, per) ==> length <= k * per
    ensures k < NumChunk(length, per) ==> k * per <= length
  {
    DivUpBounds(length, per);
    if k < NumChunk(length, per) { MulMono(k, NumChunk(length, per) - 1, per); }
  }

  function ArgFrame(a: Arg, argId: nat, numArgs: nat, key: string, flags: nat, per: nat, i: nat): Frame
    requires per > 0
  {
    Frame(NumChunk(|a.data|, per), i, numArgs, argId, DTypeOf(a), key, Piece(a.data, per, i),
          if i == 0 then ShapeOf(a) else [], flags)
  }

  function ArgFrames(a: Arg, argId: nat, numArgs: nat, key: string, flags: nat, per: nat): seq<Frame>
    requires per > 0
  {
    seq(NumChunk(|a.data|, per), i requires 0 <= i < NumChunk(|a.data|, per) =>
      ArgFrame(a, argId, numArgs, key, flags, per, i))
  }

  /** The frames of the arguments from `i` on. */
  function FramesFrom(args: seq<Arg>, i: nat, key: string, flags: nat, per: nat): seq<Frame>
    requires per > 0 && i <= |args|
    decreases |args| - i
  {
    if i == |args| then []
    else ArgFrames(args[i], i, |args|, key, flags, per) + FramesFrom(args, i + 1, key, flags, per)
  }

  /** `to_protobuf_stream_gen` */
  method ToProtobufStream(args: seq<Arg>, key: string, flags: nat, chunkSize: nat) returns (frames: seq<Frame>)
    requires chunkSize > 0
    ensures frames == FramesFrom(args, 0, key, flags, chunkSize)
  {
    frames := [];
    for argIdx := 0 to |args|
      invariant FramesFrom(args, 0, key, flags, chunkSize) == frames + FramesFrom(args, argIdx, key, flags, chunkSize)
    {
      var arg := args[argIdx];
      var numChunk := NumChunk(|arg.data|, chunkSize);
      ghost var all, before := ArgFrames(arg, argIdx, |args|, key, flags, chunkSize), frames;
      for i := 0 to numChunk
        invariant frames == before + all[..i]
      {
        frames := frames + [Frame(numChunk, i, |args|, argIdx, DTypeOf(arg), key, Piece(arg.data, chunkSize, i),
                                  if i == 0 then ShapeOf(arg) else [], flags)];
        assert all[..i + 1] == all[..i] + [all[i]];
      }
      assert all[..numChunk] == all;
      Assoc(before, all, FramesFrom(args, argIdx + 1, key, flags, chunkSize));
    }
    assert frames + [] == frames;
  }

  // ---------------------------------------------------------------- the decoder

  /** The fields of `FromBufferStream`; `args` holds the arguments that are complete and, while an
      array is being received, that array. */
  datatype Decoder = Decoder(shape: seq<nat>, accum: nat, dtype: DType, isNp: bool, funcKey: string,
                             datas: seq<seq<Byte>>, args: seq<Arg>)

  datatype StepResult = More(st: Decoder) | Done(args: seq<Arg>, key: string, st: Decoder) | Raised

  /** `view[at:at + len(data)] = data`; numpy broadcasts a single element into an empty slice and
      otherwise refuses data that is cut short by the end of the array. */
  function Write(view: seq<Byte>, at: nat, data: seq<Byte>): Option<seq<Byte>> {
    if at + |data| <= |view| then Some(view[..at] + data + view[at + |data|..])
    else if |data| <= 1 then Some(view)
    else None
  }

  /** The bytes of `np.empty`; their content is not known, `fill` stands for it. */
  function Empty(n: nat, fill: Byte): seq<Byte> {
    seq(n, _ => fill)
  }

  /** The first frame of an argument resets everything that belongs to one argument. */
  function BeginArg(st: Decoder, f: Frame, fill: Byte): Decoder {
    if f.chunkId != 0 then st
    else
      var st' := Decoder(f.shape, 0, f.dtype, f.dtype.Np?, f.funcKey, [], st.args);
      if f.dtype.Np? then
        st'.(args := st.args + [NdArray(f.dtype, f.shape, Empty(ItemSize(f.dtype.ty) * Product(f.shape), fill))])
      else st'
  }

  function Absorb(st: Decoder, f: Frame): Option<Decoder> {
    if !st.isNp then Some(st.(datas := st.datas + [f.data]))
    else if st.args == [] || !st.args[|st.args| - 1].NdArray? then None
    else
      var last := st.args[|st.args| - 1];
      match Write(last.data, st.accum, f.data)
      case None => None
      case Some(data) => Some(st.(args := st.args[|st.args| - 1 := last.(data := data)]))
  }

  /** `pb2data` on the joined pieces of an argument that is not an array. */
  function Join(st: Decoder): Arg {
    if st.dtype.Base64? then JsBuffer(Concat(st.datas)) else BytesArg(Concat(st.datas))
  }

  /** `FromBufferStream.__call__` */
  function Step(st: Decoder, f: Frame, fill: Byte): StepResult {
    match Absorb(BeginArg(st, f, fill), f)
    case None => Raised
    case Some(st') =>
      if f.chunkId + 1 != f.numChunk then More(st'.(accum := st'.accum + |f.data|))
      else
        var args := if st'.isNp then st'.args else st'.args + [Join(st')];
        var end := st'.(datas := [], accum := 0, isNp := false, args := args);
        if f.argId + 1 == f.numArgs then Done(args, st'.funcKey, end.(args := []))
        else More(end.(accum := |f.data|))
  }

  /** A decoder that is new or has been cleared; the fields other than `args` are stale. */
  predicate Idle(st: Decoder) {
    st.args == []
  }

  const NEW_DECODER := Decoder([], 0, CustomBytes, false, "", [], [])

  /** The decoder as an object. */
  class FromBufferStream {
    const fill: Byte
    var shape: seq<nat>
    var accum: nat
    var dtype: DType
    var isNp: bool
    var funcKey: string
    var datas: seq<seq<Byte>>
    var args: seq<Arg>

    constructor (fill: Byte)
      ensures State() == NEW_DECODER && this.fill == fill
    {
      this.fill := fill;
      shape, accum, dtype, isNp, funcKey, datas, args := [], 0, CustomBytes, false, "", [], [];
    }

    function State(): Decoder
      reads this
    {
      Decoder(shape, accum, dtype, isNp, funcKey, datas, args)
    }

    method Clear()
      modifies this
      ensures Idle(State())
    {
      shape, accum, isNp, funcKey, datas, args := [], 0, false, "", [], [];
    }

    /** The first half of a call: a first frame starts an argument, and the bytes are stored. */
    method Receive(buf: Frame) returns (ok: bool)
      modifies this
      ensures ok <==> Absorb(BeginArg(old(State()), buf, fill), buf).Some?
      ensures ok ==> Absorb(BeginArg(old(State()), buf, fill), buf) == Some(State())
    {
      if buf.chunkId == 0 {
        shape, dtype, funcKey := buf.shape, buf.dtype, buf.funcKey;
        isNp := buf.dtype.Np?;
        datas, accum := [], 0;
        if isNp {
          args := args + [NdArray(dtype, shape, Empty(ItemSize(dtype.ty) * Product(shape), fill))];
        }
      }
      if isNp {
        if args == [] || !args[|args| - 1].NdArray? { return false; }
        var written := Write(args[|args| - 1].data, accum, buf.data);
        if written.None? { return false; }
        args := args[|args| - 1 := args[|args| - 1].(data := written.value)];
      } else {
        datas := datas + [buf.data];
      }
      ok := true;
    }

    /** One frame; returns the arguments and the key when it was the last one of a call. */
    method Call(buf: Frame) returns (ok: bool, res: Option<(seq<Arg>, string)>)
      modifies this
      ensures ok <==> !Step(old(State()), buf, fill).Raised?
      ensures ok && res.None? ==> Step(old(State()), buf, fill) == More(State())
      ensures ok && res.Some? ==> Step(old(State()), buf, fill) == Done(res.value.0, res.value.1, State())
    {
      res := None;
      ok := Receive(buf);
      if !ok { return; }
      if buf.chunkId + 1 == buf.numChunk {
        if !isNp {
          var data := Concat(datas);
          args := args + [if dtype.Base64? then JsBuffer(data) else BytesArg(data)];
        }
        datas, accum, isNp := [], 0, false;
        if buf.argId + 1 == buf.numArgs {
          res := Some((args, funcKey));
          args := [];
          return;
        }
      }
      accum := accum + |buf.data|;
    }
  }
}
