/**
 The websocket message format: a header message followed by data frames of bounded size, the
 encoder that fills them from a list of arrays, and the decoder that reads arrays back from
 frames cut at other places than the arrays.
 */
module WsCodec {
  import opened Bytes

  // ---------------------------------------------------------------- arrays and their sizes

  const BYTES_CODE: nat := 100
  const ARRAYBUFFER_CODE: nat := 102

  datatype Meta = Meta(code: nat, shape: seq<nat>)

  /** An array, a bytes object or an array buffer: its metadata and its bytes. */
  datatype Arr = Arr(meta: Meta, data: seq<Byte>)

  datatype SizeResult = Size(n: nat) | UnknownDtype | RankZero

  predicate IsBytesCode(code: nat) {
    code == BYTES_CODE || code == ARRAYBUFFER_CODE
  }

  /** Item sizes of the dtype codes that the decoder knows. */
  const ITEM_SIZES: map<nat, nat> :=
    map[5 := 1, 7 := 2, 0 := 4, 4 := 8, 3 := 1, 2 := 2, 1 := 4, 8 := 8, 6 := 1, 9 := 2, 10 := 4, 11 := 8]

  /** The number of bytes the decoder reads for an entry of the metadata list. */
  function MetaSize(m: Meta): SizeResult {
    if IsBytesCode(m.code) then
      if m.shape == [] then RankZero else Size(m.shape[0])
    else if m.code !in ITEM_SIZES then UnknownDtype
    else if m.shape == [] then RankZero
    else Size(ITEM_SIZES[m.code] * Product(m.shape))
  }

  /** The array types that can be sent. */
  datatype NpDtype =
    | Bool | Float16 | Float32 | Float64 | Int8 | Int16 | Int32 | Int64 | UInt8 | UInt16 | UInt32 | UInt64

  function Width(t: NpDtype): nat {
    match t
    case Bool | Int8 | UInt8 => 1
    case Float16 | Int16 | UInt16 => 2
    case Float32 | Int32 | UInt32 => 4
    case Float64 | Int64 | UInt64 => 8
  }

  /** The code that the encoder enters for an array type. */
  function CodeOf(t: NpDtype): nat {
    match t
    case Float32 => 0 case Int32 => 1 case Int16 => 2 case Int8 => 3 case Float64 => 4 case Bool => 5
    case UInt8 => 6 case Float16 => 7 case Int64 => 8 case UInt16 => 9 case UInt32 => 10 case UInt64 => 11
  }

  /** The decoder reads as many bytes as the array has, for every type and shape; no two types share a code,
      and none has a code of bytes objects. */
  lemma CodesAreInverted(t: NpDtype, u: NpDtype, shape: seq<nat>)
    requires shape != []
    ensures MetaSize(Meta(CodeOf(t), shape)) == Size(Width(t) * Product(shape))
    ensures CodeOf(t) == CodeOf(u) <==> t == u
    ensures !IsBytesCode(CodeOf(t))
  {
  }

  /** What the encoder is given: the metadata describes the bytes. */
  predicate ValidArr(a: Arr) {
    MetaSize(a.meta) == Size(|a.data|)
  }

  function Datas(arrays: seq<Arr>): seq<seq<Byte>> {
    seq(|arrays|, i requires 0 <= i < |arrays| => arrays[i].data)
  }

  function Metas(arrays: seq<Arr>): seq<Meta> {
    seq(|arrays|, i requires 0 <= i < |arrays| => arrays[i].meta)
  }

  // ---------------------------------------------------------------- frames

  datatype MsgKind = Event | Rpc | Other(value: Byte)

  /** The sizes that protobuf reports of the request header, before the number of data frames is entered,
      and of a chunk header, whose fields are never zero; and the chunk size. */
  datatype Sizes = Sizes(request: nat, chunkHeader: nat, chunk: nat)

  datatype Frame =
    | HeaderFrame(kind: MsgKind, serviceId: nat, rpcId: nat, chunkIndex: nat, payload: seq<Byte>)
    | DataFrame(isEvent: bool, encServiceId: nat, encRpcId: nat, encIndex: nat, payload: seq<Byte>)

  datatype EncodeResult = Frames(frames: seq<Frame>) | Refused

  /** `encode_protobuf_uint`: fixed-width fields must not be zero. */
  function EncodeUint(n: nat): nat { n + 1 }

  function DecodeUint(n: nat): int { n - 1 }

  /** `bytearray(n)`. */
  function Zeros(n: nat): seq<Byte> {
    seq(n, _ => 0)
  }

  /** Payload bytes of data frame `i` when `flat` is cut into pieces of `per` bytes. */
  function Slice(flat: seq<Byte>, per: nat, i: nat): seq<Byte>
    requires i * per <= |flat|
  {
    flat[i * per..Min(i * per + per, |flat|)]
  }

  /** Data frame `i`; the first one is always allocated in full and padded with zeros. */
  function Payload(flat: seq<Byte>, per: nat, i: nat): seq<Byte>
    requires i * per <= |flat|
  {
    Slice(flat, per, i) + if i == 0 then Zeros(per - |Slice(flat, per, i)|) else []
  }

  lemma FrameStartsInside(total: nat, per: nat, i: nat)
    requires per > 0 && i < DivUp(total, per)
    ensures i * per < total
    ensures i + 1 < DivUp(total, per) ==> (i + 1) * per == i * per + per < total
    ensures i + 1 == DivUp(total, per) ==> total <= i * per + per
  {
    var n := DivUp(total, per);
    DivUpBounds(total, per);
    MulMono(i, n - 1, per);
    assert (i + 1) * per == i * per + per;
    if i + 1 < n { MulMono(i + 1, n - 1, per); }
  }

  function Payloads(flat: seq<Byte>, per: nat): (r: seq<seq<Byte>>)
    requires per > 0
    ensures |r| == DivUp(|flat|, per)
  {
    seq(DivUp(|flat|, per), i requires 0 <= i < DivUp(|flat|, per) =>
      (FrameStartsInside(|flat|, per, i); Payload(flat, per, i)))
  }

  function DataFrames(isEvent: bool, serviceId: nat, rpcId: nat, flat: seq<Byte>, per: nat): (r: seq<Frame>)
    requires per > 0
    ensures |r| == DivUp(|flat|, per)
  {
    var payloads := Payloads(flat, per);
    seq(|payloads|, i requires 0 <= i < |payloads| =>
      DataFrame(isEvent, EncodeUint(serviceId), EncodeUint(rpcId), EncodeUint(i), payloads[i]))
  }

  /** Every data frame but the last is full of content and the last carries the remainder; only
      a frame that is alone is padded. */
  lemma PayloadSizes(flat: seq<Byte>, per: nat, i: nat)
    requires per > 0 && i < DivUp(|flat|, per)
    ensures var n := DivUp(|flat|, per);
      && (i + 1 < n || n == 1 ==> |Payloads(flat, per)[i]| == per)
      && (i + 1 == n ==> 0 < |flat| - i * per <= per)
      && (i + 1 == n > 1 ==> |Payloads(flat, per)[i]| == |flat| - i * per)
  {
    FrameStartsInside(|flat|, per, i);
  }

  /** Padding behind the first frame when it is the only one and not full. */
  function Pad(flat: seq<Byte>, per: nat, k: nat): nat {
    if k > 0 && |flat| < per then per - |flat| else 0
  }

  /** The payloads of the first `k` frames carry the content up to the end of frame `k - 1`. */
  lemma {:induction false} PayloadsPrefix(flat: seq<Byte>, per: nat, k: nat)
    requires per > 0 && k <= DivUp(|flat|, per)
    ensures Concat(Payloads(flat, per)[..k]) == flat[..Min(k * per, |flat|)] + Zeros(Pad(flat, per, k))
  {
    var payloads := Payloads(flat, per);
    if k == 0 {
      assert payloads[..0] == [];
    } else {
      PayloadsPrefix(flat, per, k - 1);
      ConcatTake(payloads, k - 1);
      FrameStartsInside(|flat|, per, k - 1);
      PrefixGrows(flat, per, k - 1, Concat(payloads[..k - 1]));
    }
  }

  lemma PrefixGrows(flat: seq<Byte>, per: nat, i: nat, prefix: seq<Byte>)
    requires per > 0 && i * per < |flat|
    requires prefix == flat[..Min(i * per, |flat|)] + Zeros(Pad(flat, per, i))
    ensures prefix + Payload(flat, per, i) == flat[..Min((i + 1) * per, |flat|)] + Zeros(Pad(flat, per, i + 1))
  {
    assert (i + 1) * per == i * per + per;
    if i > 0 { MulMono(1, i, per); }
    EmptySuffix(flat[..i * per]);
    TakeThenSlice(flat, i * per, Min(i * per + per, |flat|));
    Assoc(flat[..i * per], Slice(flat, per, i), if i == 0 then Zeros(per - |Slice(flat, per, i)|) else []);
  }

  // ---------------------------------------------------------------- the encoder

  /** Bytes of content in data frame `k`. */
  function Room(total: nat, per: nat, k: nat): int {
    Min(per, total - k * per)
  }

  /** Where the filling of the data frames stands: `k` frames are out, `pos` content bytes are
      in the current one, `chunk` is its payload area. */
  ghost predicate Filling(flat: seq<Byte>, per: nat, k: nat, pos: nat, chunk: seq<Byte>)
    requires per > 0
  {
    var total := |flat|;
    && k < DivUp(total, per) && k * per < total
    && 0 <= pos < Room(total, per, k)
    && |chunk| == (if k == 0 then per else Room(total, per, k))
    && chunk == flat[k * per..k * per + pos] + Zeros(|chunk| - pos)
  }

  /** The byte counter of the source: frame heads still to come and content not yet flushed. */
  ghost predicate Remaining(total: nat, per: nat, k: nat, head: nat, remain: int)
    requires per > 0
  {
    remain == (DivUp(total, per) - k) * head + (total - k * per)
  }

  /** The counter gives every frame its exact room. */
  lemma RemainingGivesRoom(total: nat, per: nat, k: nat, head: nat, remain: int)
    requires per > 0 && k < DivUp(total, per) && Remaining(total, per, k, head, remain)
    ensures k * per < total
    ensures Min(remain, per + head) - head == Room(total, per, k) > 0
    ensures Remaining(total, per, k + 1, head, remain - (per + head))
  {
    var left := DivUp(total, per) - k;
    FrameStartsInside(total, per, k);
    assert left * head == (left - 1) * head + head;
    assert (k + 1) * per == k * per + per;
    MulMono(0, left - 1, head);
    if left == 1 { assert (left - 1) * head == 0; }
  }

  lemma FirstRemaining(total: nat, per: nat, head: nat)
    requires per > 0
    ensures Remaining(total, per, 0, head, DivUp(total, per) * head + total)
  {
  }

  /** Copying `n` more bytes of content keeps the picture, or completes frame `k`. */
  lemma Filled(flat: seq<Byte>, per: nat, k: nat, pos: nat, chunk: seq<Byte>, n: nat, chunk': seq<Byte>)
    requires per > 0 && Filling(flat, per, k, pos, chunk) && 0 < n <= Room(|flat|, per, k) - pos
    requires chunk' == chunk[..pos] + flat[k * per + pos..k * per + pos + n] + chunk[pos + n..]
    ensures pos + n < Room(|flat|, per, k) ==> Filling(flat, per, k, pos + n, chunk')
    ensures pos + n == Room(|flat|, per, k) ==> chunk' == Payload(flat, per, k)
  {
    var done := flat[k * per..k * per + pos];
    assert chunk[..pos] == done;
    assert done + flat[k * per + pos..k * per + pos + n] == flat[k * per..k * per + pos + n];
    assert chunk[pos + n..] == Zeros(|chunk| - pos - n);
    assert chunk' == flat[k * per..k * per + pos + n] + Zeros(|chunk| - pos - n);
  }

  /** A fresh payload area starts the next frame. */
  lemma NextFilling(flat: seq<Byte>, per: nat, k: nat, chunk: seq<Byte>)
    requires per > 0 && k < DivUp(|flat|, per) && k * per < |flat|
    requires chunk == Zeros(if k == 0 then per else Room(|flat|, per, k))
    ensures Filling(flat, per, k, 0, chunk)
  {
  }

  /** The whole picture of the filling loop: frames that are out, the one being filled, the byte
      counter, and the number `done` of content bytes copied so far. */
  ghost predicate Progress(flat: seq<Byte>, per: nat, head: nat, k: nat, pos: nat, chunk: seq<Byte>,
    room: int, remain: int, out: seq<seq<Byte>>, done: nat)
    requires per > 0
  {
    && k <= DivUp(|flat|, per) && out == Payloads(flat, per)[..k]
    && if k == DivUp(|flat|, per) then done == |flat|
       else
         && Filling(flat, per, k, pos, chunk) && Remaining(|flat|, per, k, head, remain)
         && room == Room(|flat|, per, k) - pos && done == k * per + pos
  }

  /** The step inside a frame. */
  lemma ProgressInside(flat: seq<Byte>, per: nat, head: nat, k: nat, pos: nat, chunk: seq<Byte>,
    room: int, remain: int, out: seq<seq<Byte>>, done: nat, n: nat, chunk': seq<Byte>)
    requires per > 0 && Progress(flat, per, head, k, pos, chunk, room, remain, out, done)
    requires done < |flat| && 0 < n < room
    requires chunk' == chunk[..pos] + flat[done..done + n] + chunk[pos + n..]
    ensures Progress(flat, per, head, k, pos + n, chunk', room - n, remain, out, done + n)
  {
    Filled(flat, per, k, pos, chunk, n, chunk');
  }

  /** The step that completes a frame, and the start of the next one. */
  lemma ProgressFlush(flat: seq<Byte>, per: nat, head: nat, k: nat, pos: nat, chunk: seq<Byte>,
    room: int, remain: int, out: seq<seq<Byte>>, done: nat, chunk': seq<Byte>)
    requires per > 0 && Progress(flat, per, head, k, pos, chunk, room, remain, out, done)
    requires done < |flat| && room > 0
    requires chunk' == chunk[..pos] + flat[done..done + room] + chunk[pos + room..]
    ensures out + [chunk'] == Payloads(flat, per)[..k + 1]
    ensures k + 1 == DivUp(|flat|, per) ==> done + room == |flat|
    ensures k + 1 < DivUp(|flat|, per) ==>
      var remain' := remain - (per + head);
      var room' := Min(remain', per + head) - head;
      room' > 0 && Progress(flat, per, head, k + 1, 0, Zeros(room'), room', remain', out + [chunk'], done + room)
  {
    Filled(flat, per, k, pos, chunk, room, chunk');
    FrameStartsInside(|flat|, per, k);
    RemainingGivesRoom(|flat|, per, k, head, remain);
    assert out + [chunk'] == Payloads(flat, per)[..k + 1];
    if k + 1 < DivUp(|flat|, per) {
      var remain' := remain - (per + head);
      RemainingGivesRoom(|flat|, per, k + 1, head, remain');
      NextFilling(flat, per, k + 1, Zeros(Room(|flat|, per, k + 1)));
    }
  }

  lemma ProgressStart(flat: seq<Byte>, per: nat, head: nat)
    requires per > 0
    ensures var remain := DivUp(|flat|, per) * head + |flat|;
      Progress(flat, per, head, 0, 0, Zeros(per), Min(remain, per + head) - head, remain, [], 0)
  {
    FirstRemaining(|flat|, per, head);
    DivUpBounds(|flat|, per);
    if DivUp(|flat|, per) > 0 {
      RemainingGivesRoom(|flat|, per, 0, head, DivUp(|flat|, per) * head + |flat|);
      NextFilling(flat, per, 0, Zeros(per));
    }
  }

  // ---------------------------------------------------------------- whole messages

  /** What the encoder yields: a single message when it fits, otherwise a header message and data frames. */
  function Encoded(kind: MsgKind, serviceId: nat, rpcId: nat, arrays: seq<Arr>, sizes: Sizes): EncodeResult {
    var flat := Concat(Datas(arrays));
    if 5 + sizes.request + |flat| < sizes.chunk then Frames([HeaderFrame(kind, serviceId, rpcId, 0, flat)])
    else if sizes.request + 5 > sizes.chunk || sizes.chunkHeader + 5 >= sizes.chunk then Refused
    else
      var per := sizes.chunk - sizes.chunkHeader - 5;
      Frames([HeaderFrame(kind, serviceId, rpcId, DivUp(|flat|, per), [])]
        + DataFrames(kind.Event?, serviceId, rpcId, flat, per))
  }

  /** The length of a message on the wire: a type byte, the header length, the header and the payload. The
      number of data frames takes five bytes of the header, and none while it is zero. */
  function MessageLength(f: Frame, sizes: Sizes): nat {
    match f
    case HeaderFrame(_, _, _, chunkIndex, payload) =>
      5 + sizes.request + (if chunkIndex > 0 then 5 else 0) + |payload|
    case DataFrame(_, _, _, _, payload) => 5 + sizes.chunkHeader + |payload|
  }

  /** What the sizes must allow for content of `n` bytes: it fits into one message, or both kinds of
      header leave room. */
  predicate Sendable(n: nat, sizes: Sizes) {
    5 + sizes.request + n < sizes.chunk || (5 + sizes.request <= sizes.chunk && 5 + sizes.chunkHeader < sizes.chunk)
  }

  /** The encoder refuses nothing else. */
  lemma EncodedIff(kind: MsgKind, serviceId: nat, rpcId: nat, arrays: seq<Arr>, sizes: Sizes)
    ensures Encoded(kind, serviceId, rpcId, arrays, sizes).Frames? <==> Sendable(|Concat(Datas(arrays))|, sizes)
  {
  }

  /** Every message carries what it was given, the header message says how many data frames follow, and there
      are none exactly when the content fits into one message or there is no content. */
  lemma EncodedCarries(kind: MsgKind, serviceId: nat, rpcId: nat, arrays: seq<Arr>, sizes: Sizes)
    requires Sendable(|Concat(Datas(arrays))|, sizes)
    ensures Encoded(kind, serviceId, rpcId, arrays, sizes).Frames?
    ensures var frames, n := Encoded(kind, serviceId, rpcId, arrays, sizes).frames, |Concat(Datas(arrays))|;
      && CarryIds(frames, kind, serviceId, rpcId) && frames[0].chunkIndex == |frames| - 1
      && (|frames| == 1 <==> 5 + sizes.request + n < sizes.chunk || n == 0)
  {
    var flat := Concat(Datas(arrays));
    if 5 + sizes.request + |flat| >= sizes.chunk {
      ChunkedCarries(kind, serviceId, rpcId, flat, sizes.chunk - sizes.chunkHeader - 5);
    }
  }

  lemma ChunkedCarries(kind: MsgKind, serviceId: nat, rpcId: nat, flat: seq<Byte>, per: nat)
    requires per > 0
    ensures var frames := [HeaderFrame(kind, serviceId, rpcId, DivUp(|flat|, per), [])]
        + DataFrames(kind.Event?, serviceId, rpcId, flat, per);
      CarryIds(frames, kind, serviceId, rpcId) && |frames| == DivUp(|flat|, per) + 1 && (|frames| == 1 <==> |flat| == 0)
  {
    NoFramesIff(|flat|, per);
  }

  lemma NoFramesIff(n: nat, per: nat)
    requires per > 0
    ensures DivUp(n, per) == 0 <==> n == 0
  {
    DivUpBounds(n, per);
  }

  /** A header message with the kind and the ids, and data frames with the same ids, encoded, in order. */
  predicate CarryIds(frames: seq<Frame>, kind: MsgKind, serviceId: nat, rpcId: nat) {
    && frames != [] && frames[0].HeaderFrame?
    && frames[0].kind == kind && frames[0].serviceId == serviceId && frames[0].rpcId == rpcId
    && forall i :: 1 <= i < |frames| ==>
      && frames[i].DataFrame? && (frames[i].isEvent <==> kind.Event?) && DecodeUint(frames[i].encServiceId) == serviceId
      && DecodeUint(frames[i].encRpcId) == rpcId && DecodeUint(frames[i].encIndex) == i - 1
  }

  /** No message is longer than the chunk size but, exactly when its header grows past it, the header
      message: its size is checked before the number of data frames is entered. */
  lemma OnlyTheHeaderMayExceed(kind: MsgKind, serviceId: nat, rpcId: nat, arrays: seq<Arr>, sizes: Sizes)
    requires Encoded(kind, serviceId, rpcId, arrays, sizes).Frames?
    ensures var frames := Encoded(kind, serviceId, rpcId, arrays, sizes).frames;
      && frames != []
      && (forall i :: 1 <= i < |frames| ==> MessageLength(frames[i], sizes) <= sizes.chunk)
      && (MessageLength(frames[0], sizes) > sizes.chunk <==> |frames| > 1 && sizes.request + 10 > sizes.chunk)
  {
    var flat := Concat(Datas(arrays));
    if 5 + sizes.request + |flat| >= sizes.chunk {
      var per := sizes.chunk - sizes.chunkHeader - 5;
      var frames := Encoded(kind, serviceId, rpcId, arrays, sizes).frames;
      forall i | 1 <= i < |frames| ensures MessageLength(frames[i], sizes) <= sizes.chunk {
        assert frames[i] == DataFrames(kind.Event?, serviceId, rpcId, flat, per)[i - 1];
        PayloadSizes(flat, per, i - 1);
      }
    }
  }

  /** `get_message_chunks` */
  method GetMessageChunks(kind: MsgKind, serviceId: nat, rpcId: nat, arrays: seq<Arr>, sizes: Sizes)
    returns (r: EncodeResult)
    ensures r == Encoded(kind, serviceId, rpcId, arrays, sizes)
  {
    var total := TotalSize(arrays);
    ghost var flat := Concat(Datas(arrays));
    if 5 + sizes.request + total < sizes.chunk {
      var payload := SingleMessage(arrays, total);
      return Frames([HeaderFrame(kind, serviceId, rpcId, 0, payload)]);
    }
    if sizes.request + 5 > sizes.chunk { return Refused; }
    var per := sizes.chunk - sizes.chunkHeader - 5;
    if per <= 0 { return Refused; }
    var header := HeaderFrame(kind, serviceId, rpcId, DivUp(total, per), []);
    var payloads := FillFrames(arrays, total, per, sizes.chunkHeader + 5);
    var frames := seq(|payloads|, i requires 0 <= i < |payloads| =>
      DataFrame(kind.Event?, EncodeUint(serviceId), EncodeUint(rpcId), EncodeUint(i), payloads[i]));
    r := Frames([header] + frames);
  }

  /** `_total_size`, summed up in the constructor. */
  method TotalSize(arrays: seq<Arr>) returns (total: nat)
    ensures total == |Concat(Datas(arrays))|
  {
    total := 0;
    for i := 0 to |arrays|
      invariant total == |Concat(Datas(arrays)[..i])|
    {
      ConcatPart(Datas(arrays), i);
      total := total + |arrays[i].data|;
    }
    assert Datas(arrays)[..|arrays|] == Datas(arrays);
  }

  /** The array part of a message that fits into one chunk. */
  method SingleMessage(arrays: seq<Arr>, total: nat) returns (payload: seq<Byte>)
    requires total == |Concat(Datas(arrays))|
    ensures payload == Concat(Datas(arrays))
  {
    ghost var datas := Datas(arrays);
    var binary := NewChunk(total);
    var start := 0;
    for i := 0 to |arrays|
      invariant start == |Concat(datas[..i])| <= total
      invariant binary[..start] == Concat(datas[..i])
    {
      ConcatPart(datas, i);
      assert datas[..i + 1] == datas[..i] + [datas[i]];
      ConcatSnoc(datas[..i], datas[i]);
      CopyInto(binary, start, arrays[i].data, 0, |arrays[i].data|);
      start := start + |arrays[i].data|;
    }
    assert datas[..|arrays|] == datas;
    payload := binary[..];
  }

  /** The loop that fills the data frames: two partitions of the same bytes, by array and by frame. */
  method FillFrames(arrays: seq<Arr>, total: nat, per: nat, head: nat) returns (out: seq<seq<Byte>>)
    requires per > 0 && total == |Concat(Datas(arrays))|
    ensures out == Payloads(Concat(Datas(arrays)), per)
  {
    var numChunks := DivUp(total, per);
    ghost var datas, flat := Datas(arrays), Concat(Datas(arrays));
    var chunk := NewChunk(per);
    var k, pos, remain := 0, 0, numChunks * head + total;
    var room := Min(remain, per + head) - head;
    ProgressStart(flat, per, head);
    out := [];
    for i := 0 to |arrays|
      invariant fresh(chunk)
      invariant Progress(flat, per, head, k, pos, chunk[..], room, remain, out, |Concat(datas[..i])|)
    {
      ConcatPart(datas, i);
      chunk, k, pos, room, remain, out := FillFromArray(arrays[i].data, numChunks, per, head,
        chunk, k, pos, room, remain, out, flat, |Concat(datas[..i])|);
    }
    assert datas[..|arrays|] == datas;
    FramesComplete(flat, per, head, k, pos, chunk[..], room, remain, out);
  }

  /** The inner loop: the bytes of one array go into the current frame and the ones after it.
      No step copies zero bytes. */
  method FillFromArray(data: seq<Byte>, numChunks: nat, per: nat, head: nat,
    chunk0: array<Byte>, k0: nat, pos0: nat, room0: int, remain0: int, out0: seq<seq<Byte>>,
    ghost flat: seq<Byte>, ghost at: nat)
    returns (chunk: array<Byte>, k: nat, pos: nat, room: int, remain: int, out: seq<seq<Byte>>)
    requires per > 0 && numChunks == DivUp(|flat|, per)
    requires at + |data| <= |flat| && flat[at..at + |data|] == data
    requires Progress(flat, per, head, k0, pos0, chunk0[..], room0, remain0, out0, at)
    modifies chunk0
    ensures chunk == chunk0 || fresh(chunk)
    ensures Progress(flat, per, head, k, pos, chunk[..], room, remain, out, at + |data|)
  {
    chunk, k, pos, room, remain, out := chunk0, k0, pos0, room0, remain0, out0;
    var size, arrStart := |data|, 0;
    while size > 0
      invariant chunk == chunk0 || fresh(chunk)
      invariant 0 <= size && size + arrStart == |data|
      invariant Progress(flat, per, head, k, pos, chunk[..], room, remain, out, at + arrStart)
    {
      var n;
      n, chunk, k, pos, room, remain, out := CopyStep(data, arrStart, size, numChunks, per, head,
        chunk, k, pos, room, remain, out, flat, at);
      arrStart, size := arrStart + n, size - n;
    }
  }

  /** One step: as many bytes as the array still has and the frame still takes, at least one. */
  method CopyStep(data: seq<Byte>, arrStart: nat, size: nat, numChunks: nat, per: nat, head: nat,
    chunk0: array<Byte>, k0: nat, pos0: nat, room0: int, remain0: int, out0: seq<seq<Byte>>,
    ghost flat: seq<Byte>, ghost at: nat)
    returns (n: nat, chunk: array<Byte>, k: nat, pos: nat, room: int, remain: int, out: seq<seq<Byte>>)
    requires per > 0 && numChunks == DivUp(|flat|, per) && arrStart + size == |data| && size > 0
    requires at + |data| <= |flat| && flat[at..at + |data|] == data
    requires Progress(flat, per, head, k0, pos0, chunk0[..], room0, remain0, out0, at + arrStart)
    modifies chunk0
    ensures 0 < n <= size
    ensures chunk == chunk0 || fresh(chunk)
    ensures Progress(flat, per, head, k, pos, chunk[..], room, remain, out, at + arrStart + n)
  {
    chunk, k, pos, room, remain, out := chunk0, k0, pos0, room0, remain0, out0;
    ghost var before, done := chunk[..], at + arrStart;
    RoomLeft(flat, per, head, k, pos, before, room, remain, out, done);
    n := Min(size, room);
    CopyInto(chunk, pos, data, arrStart, n);
    SliceOfSlice(flat, at, at + |data|, arrStart, arrStart + n);
    if n == room {
      chunk, k, pos, room, remain, out := Flush(chunk, numChunks, per, head, k, pos, room, remain, out, flat, before,
          done);
    } else {
      ProgressInside(flat, per, head, k, pos, before, room, remain, out, done, n, chunk[..]);
      pos, room := pos + n, room - n;
    }
  }

  /** A full frame is yielded, and the next one allocated unless it was the last. */
  method Flush(chunk0: array<Byte>, numChunks: nat, per: nat, head: nat,
    k0: nat, ghost pos0: nat, ghost room0: int, remain0: int, out0: seq<seq<Byte>>,
    ghost flat: seq<Byte>, ghost before: seq<Byte>, ghost done: nat)
    returns (chunk: array<Byte>, k: nat, pos: nat, room: int, remain: int, out: seq<seq<Byte>>)
    requires per > 0 && numChunks == DivUp(|flat|, per) && 0 < room0 && done + room0 <= |flat|
    requires Progress(flat, per, head, k0, pos0, before, room0, remain0, out0, done) && pos0 + room0 <= |before|
    requires chunk0[..] == before[..pos0] + flat[done..done + room0] + before[pos0 + room0..]
    ensures chunk == chunk0 || fresh(chunk)
    ensures Progress(flat, per, head, k, pos, chunk[..], room, remain, out, done + room0)
  {
    ProgressFlush(flat, per, head, k0, pos0, before, room0, remain0, out0, done, chunk0[..]);
    chunk, k, pos, room, remain, out := chunk0, k0 + 1, 0, 0, remain0, out0 + [chunk0[..]];
    if k != numChunks {
      remain := remain - (per + head);
      room := Min(remain, per + head) - head;
      chunk := NewChunk(room);
    }
  }

  /** While bytes are outstanding the current frame has room. */
  lemma RoomLeft(flat: seq<Byte>, per: nat, head: nat, k: nat, pos: nat, chunk: seq<Byte>,
    room: int, remain: int, out: seq<seq<Byte>>, done: nat)
    requires per > 0 && Progress(flat, per, head, k, pos, chunk, room, remain, out, done) && done < |flat|
    ensures 0 < room && pos + room <= |chunk| && done + room <= |flat|
  {
  }

  /** `bytearray(n)` */
  method NewChunk(n: nat) returns (chunk: array<Byte>)
    ensures fresh(chunk) && chunk[..] == Zeros(n)
  {
    chunk := new Byte[n](_ => 0);
  }

  /** When every content byte has been copied, every frame is out. */
  lemma FramesComplete(flat: seq<Byte>, per: nat, head: nat, k: nat, pos: nat, chunk: seq<Byte>,
    room: int, remain: int, out: seq<seq<Byte>>)
    requires per > 0 && Progress(flat, per, head, k, pos, chunk, room, remain, out, |flat|)
    ensures out == Payloads(flat, per)
  {
    assert k == DivUp(|flat|, per);
    assert Payloads(flat, per)[..k] == Payloads(flat, per);
  }
}
