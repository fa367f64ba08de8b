/**
 The decoder of chunked websocket messages, and the round trip with the encoder.
 */
module WsDecoder {
  import opened Bytes
  import opened WsCodec

  datatype DecodeResult =
    | Arrays(arrays: seq<Arr>)
    | Hang            // bytes are outstanding and the last frame is exhausted: the loop never ends
    | BadDtype        // KeyError
    | BadRank         // IndexError on an empty shape
    | BadShape        // ValueError: a slice is too short for its shape
    | AssertionFailed

  /** The arrays that metadata describes in a flat byte string. */
  function Decode(metas: seq<Meta>, flat: seq<Byte>): DecodeResult {
    if metas == [] then Arrays([])
    else match MetaSize(metas[0])
      case UnknownDtype => BadDtype
      case RankZero => BadRank
      case Size(n) =>
        if n > |flat| then Hang
        else match Decode(metas[1..], flat[n..])
          case Arrays(rest) => Arrays([Arr(metas[0], flat[..n])] + rest)
          case error => error
  }

  // ---------------------------------------------------------------- when it fails

  /** The decoder knows how long the first `k` entries are. */
  predicate KnownUpTo(metas: seq<Meta>, k: nat)
    requires k <= |metas|
  {
    forall i :: 0 <= i < k ==> MetaSize(metas[i]).Size?
  }

  /** Where entry `k` starts. */
  function StartOf(metas: seq<Meta>, k: nat): nat
    requires k <= |metas| && KnownUpTo(metas, k)
  {
    if k == 0 then 0 else StartOf(metas, k - 1) + MetaSize(metas[k - 1]).n
  }

  lemma {:induction false} StartInTail(metas: seq<Meta>, k: nat)
    requires 1 <= k <= |metas| && KnownUpTo(metas, k)
    ensures KnownUpTo(metas[1..], k - 1)
    ensures StartOf(metas, k) == MetaSize(metas[0]).n + StartOf(metas[1..], k - 1)
  {
    if k > 1 { StartInTail(metas, k - 1); }
  }

  /** Entry `k` is the first that cannot be read from `n` bytes, and this is why. */
  predicate FailsAt(metas: seq<Meta>, n: nat, k: nat, why: DecodeResult) {
    && k < |metas| && KnownUpTo(metas, k) && StartOf(metas, k) <= n
    && match MetaSize(metas[k])
       case UnknownDtype => why == BadDtype
       case RankZero => why == BadRank
       case Size(size) => why == Hang && StartOf(metas, k) + size > n
  }

  lemma KnownInTail(metas: seq<Meta>, k: nat)
    requires k < |metas| && MetaSize(metas[0]).Size?
    ensures KnownUpTo(metas, k + 1) <==> KnownUpTo(metas[1..], k)
    ensures KnownUpTo(metas, k + 1) ==>
      StartOf(metas, k + 1) == MetaSize(metas[0]).n + StartOf(metas[1..], k)
  {
    assert forall j :: 1 <= j < |metas| ==> metas[j] == metas[1..][j - 1];
    if KnownUpTo(metas[1..], k) {
      assert KnownUpTo(metas, k + 1);
      StartInTail(metas, k + 1);
    }
  }

  /** Decoding succeeds exactly when every entry is known and all their bytes are there. */
  lemma {:induction false} DecodeSucceedsIff(metas: seq<Meta>, flat: seq<Byte>)
    ensures Decode(metas, flat).Arrays? <==> KnownUpTo(metas, |metas|) && StartOf(metas, |metas|) <= |flat|
  {
    if metas != [] && MetaSize(metas[0]).Size? {
      KnownInTail(metas, |metas| - 1);
      if MetaSize(metas[0]).n <= |flat| { DecodeSucceedsIff(metas[1..], flat[MetaSize(metas[0]).n..]); }
    }
  }

  /** Otherwise the first bad entry decides the error. */
  lemma {:induction false} DecodeFailsAt(metas: seq<Meta>, flat: seq<Byte>) returns (k: nat)
    requires !Decode(metas, flat).Arrays?
    ensures FailsAt(metas, |flat|, k, Decode(metas, flat))
  {
    k := 0;
    if MetaSize(metas[0]).Size? && MetaSize(metas[0]).n <= |flat| {
      var j := DecodeFailsAt(metas[1..], flat[MetaSize(metas[0]).n..]);
      KnownInTail(metas, j);
      k := j + 1;
    }
  }

  lemma DecodeHead(metas: seq<Meta>, flat: seq<Byte>)
    requires metas != [] && Decode(metas, flat).Arrays?
    ensures MetaSize(metas[0]).Size? && MetaSize(metas[0]).n <= |flat|
    ensures var n := MetaSize(metas[0]).n;
      && Decode(metas[1..], flat[n..]).Arrays?
      && Decode(metas, flat).arrays == [Arr(metas[0], flat[..n])] + Decode(metas[1..], flat[n..]).arrays
  {
  }

  /** And each array has its own bytes. */
  lemma {:induction false} DecodedEntries(metas: seq<Meta>, flat: seq<Byte>, i: nat)
    requires Decode(metas, flat).Arrays? && i < |metas|
    ensures i < |Decode(metas, flat).arrays| == |metas| && IsEntry(metas, flat, i, Decode(metas, flat).arrays[i])
  {
    DecodeHead(metas, flat);
    var n, arrays := MetaSize(metas[0]).n, Decode(metas, flat).arrays;
    if i > 0 {
      DecodedEntries(metas[1..], flat[n..], i - 1);
      EntryOfTail(metas, flat, i, arrays[i]);
    } else {
      DecodedLength(metas, flat);
      assert StartOf(metas, 0) == 0 && StartOf(metas, 1) == n;
    }
  }

  lemma {:induction false} DecodedLength(metas: seq<Meta>, flat: seq<Byte>)
    requires Decode(metas, flat).Arrays?
    ensures |Decode(metas, flat).arrays| == |metas|
  {
    if metas != [] { DecodedLength(metas[1..], flat[MetaSize(metas[0]).n..]); }
  }

  predicate IsEntry(metas: seq<Meta>, flat: seq<Byte>, i: nat, a: Arr)
    requires i < |metas|
  {
    && KnownUpTo(metas, i + 1) && StartOf(metas, i + 1) <= |flat|
    && a == Arr(metas[i], flat[StartOf(metas, i)..StartOf(metas, i + 1)])
  }

  lemma EntryOfTail(metas: seq<Meta>, flat: seq<Byte>, i: nat, a: Arr)
    requires 1 <= i < |metas| && MetaSize(metas[0]).Size? && MetaSize(metas[0]).n <= |flat|
    requires IsEntry(metas[1..], flat[MetaSize(metas[0]).n..], i - 1, a)
    ensures IsEntry(metas, flat, i, a)
  {
    var n, tail := MetaSize(metas[0]).n, metas[1..];
    assert forall j :: 1 <= j <= i ==> metas[j] == tail[j - 1];
    StartInTail(metas, i);
    StartInTail(metas, i + 1);
    SliceOfSuffix(flat, n, StartOf(tail, i - 1), StartOf(tail, i));
  }

  // ---------------------------------------------------------------- reading frame after frame

  /** The bytes behind position `start` of chunk `idx`. */
  ghost function Left(chunks: seq<seq<Byte>>, idx: nat, start: nat): seq<Byte>
    requires idx < |chunks| && start <= |chunks[idx]|
  {
    chunks[idx][start..] + Concat(chunks[idx + 1..])
  }

  lemma LeftStep(chunks: seq<seq<Byte>>, idx: nat, start: nat, n: nat)
    requires idx < |chunks| && start + n <= |chunks[idx]|
    ensures n <= |Left(chunks, idx, start)|
    ensures Left(chunks, idx, start)[..n] == chunks[idx][start..start + n]
    ensures Left(chunks, idx, start)[n..] == Left(chunks, idx, start + n)
  {
    assert chunks[idx][start..][n..] == chunks[idx][start + n..];
  }

  lemma LeftNext(chunks: seq<seq<Byte>>, idx: nat)
    requires idx + 1 < |chunks|
    ensures Left(chunks, idx, |chunks[idx]|) == Left(chunks, idx + 1, 0)
  {
    assert chunks[idx + 1..][1..] == chunks[idx + 2..];
  }

  /** The inner loop of `parse_array_of_chunked_message`: one array's bytes, frame after frame. */
  method ReadArray(size: nat, chunks: seq<seq<Byte>>, idx0: nat, start0: nat)
    returns (hang: bool, bytes: seq<Byte>, idx: nat, start: nat)
    requires idx0 < |chunks| && start0 <= |chunks[idx0]|
    ensures hang <==> size > |Left(chunks, idx0, start0)|
    ensures !hang ==>
      && idx < |chunks| && start <= |chunks[idx]|
      && bytes == Left(chunks, idx0, start0)[..size]
      && Left(chunks, idx, start) == Left(chunks, idx0, start0)[size..]
  {
    idx, start := idx0, start0;
    var data := NewChunk(size);
    ghost var all := Left(chunks, idx0, start0);
    var outstanding: nat, arrStart: nat := size, 0;
    while outstanding > 0
      invariant idx < |chunks| && start <= |chunks[idx]|
      invariant outstanding + arrStart == size == data.Length
      invariant Reading(all, data[..], arrStart, Left(chunks, idx, start))
      decreases outstanding, |chunks| - idx
    {
      var n := Min(outstanding, |chunks[idx]| - start);
      if n == 0 && idx == |chunks| - 1 {
        ReadingStuck(all, data[..], arrStart, Left(chunks, idx, start));
        return true, [], idx, start;
      }
      idx, start := ReadStep(data, arrStart, n, chunks, idx, start, all);
      outstanding, arrStart := outstanding - n, arrStart + n;
    }
    hang, bytes := false, data[..];
    ReadingDone(all, data[..], size, Left(chunks, idx, start));
  }

  /** One step of the inner loop: a slice of the current frame, and the next frame when it is used up. */
  method ReadStep(data: array<Byte>, arrStart: nat, n: nat, chunks: seq<seq<Byte>>, idx0: nat, start0: nat,
      ghost all: seq<Byte>)
    returns (idx: nat, start: nat)
    requires idx0 < |chunks| && start0 + n <= |chunks[idx0]| && arrStart + n <= data.Length
    requires Reading(all, data[..], arrStart, Left(chunks, idx0, start0))
    modifies data
    ensures idx < |chunks| && start <= |chunks[idx]|
    ensures Reading(all, data[..], arrStart + n, Left(chunks, idx, start))
    ensures idx == idx0 || idx == idx0 + 1
    ensures n == 0 && start0 == |chunks[idx0]| && idx0 != |chunks| - 1 ==> idx == idx0 + 1
  {
    LeftStep(chunks, idx0, start0, n);
    ghost var before, left := data[..], Left(chunks, idx0, start0);
    CopyInto(data, arrStart, chunks[idx0], start0, n);
    ReadingStep(all, before, arrStart, left, n, data[..]);
    idx, start := idx0, start0 + n;
    if start == |chunks[idx]| && idx != |chunks| - 1 {
      LeftNext(chunks, idx);
      idx, start := idx + 1, 0;
    }
  }

  /** `k` bytes of `all` have been copied to `data`, and `left` is the rest. */
  ghost predicate Reading(all: seq<Byte>, data: seq<Byte>, k: nat, left: seq<Byte>) {
    k <= |all| && k <= |data| && data[..k] == all[..k] && left == all[k..]
  }

  lemma ReadingDone(all: seq<Byte>, data: seq<Byte>, size: nat, left: seq<Byte>)
    requires Reading(all, data, size, left) && |data| == size
    ensures size <= |all| && data == all[..size] && left == all[size..]
  {
  }

  lemma ReadingStuck(all: seq<Byte>, data: seq<Byte>, k: nat, left: seq<Byte>)
    requires Reading(all, data, k, left) && left == []
    ensures k == |all|
  {
  }

  lemma ReadingStep(all: seq<Byte>, data: seq<Byte>, k: nat, left: seq<Byte>, n: nat, data': seq<Byte>)
    requires Reading(all, data, k, left) && n <= |left| && k + n <= |data|
    requires data' == data[..k] + left[..n] + data[k + n..]
    ensures Reading(all, data', k + n, left[n..])
  {
    DropDrop(all, k, n);
    GrowPrefix(all, data, k, n, data');
  }

  lemma GrowPrefix(all: seq<Byte>, before: seq<Byte>, k: nat, n: nat, after: seq<Byte>)
    requires k + n <= |before| && k + n <= |all| && before[..k] == all[..k]
    requires after == before[..k] + all[k..][..n] + before[k + n..]
    ensures after[..k + n] == all[..k + n]
  {
  }

  /** `parse_array_of_chunked_message` on the payloads of the collected frames. */
  method ParseChunks(chunkIndex: nat, metas: seq<Meta>, chunks: seq<seq<Byte>>) returns (r: DecodeResult)
    ensures r == if chunkIndex == 0 || chunkIndex != |chunks| then AssertionFailed else Decode(metas, Concat(chunks))
  {
    if chunkIndex == 0 || chunkIndex != |chunks| { return AssertionFailed; }
    var idx: nat, start: nat, arrs: seq<Arr> := 0, 0, [];
    assert Left(chunks, 0, 0) == Concat(chunks);
    for i := 0 to |metas|
      invariant idx < |chunks| && start <= |chunks[idx]|
      invariant Decode(metas, Concat(chunks)) == Prepend(arrs, Decode(metas[i..], Left(chunks, idx, start)))
    {
      assert metas[i..][1..] == metas[i + 1..];
      match MetaSize(metas[i])
      case UnknownDtype => return BadDtype;
      case RankZero => return BadRank;
      case Size(size) =>
        var hang, bytes;
        ghost var left := Left(chunks, idx, start);
        hang, bytes, idx, start := ReadArray(size, chunks, idx, start);
        if hang { return Hang; }
        PrependOne(arrs, Arr(metas[i], bytes), Decode(metas[i + 1..], left[size..]));
        arrs := arrs + [Arr(metas[i], bytes)];
    }
    r := Arrays(arrs);
  }

  function Prepend(arrs: seq<Arr>, r: DecodeResult): DecodeResult {
    if r.Arrays? then Arrays(arrs + r.arrays) else r
  }

  lemma PrependOne(arrs: seq<Arr>, a: Arr, r: DecodeResult)
    ensures Prepend(arrs, Prepend([a], r)) == Prepend(arrs + [a], r)
  {
    if r.Arrays? { Assoc(arrs, [a], r.arrays); }
  }

  /** What slicing gives: a Python slice never reads past the end, and only a shaped array that is not
      empty minds when it comes out short. */
  function DecodeSingle(metas: seq<Meta>, flat: seq<Byte>, start: nat): DecodeResult {
    if metas == [] then Arrays([])
    else match MetaSize(metas[0])
      case UnknownDtype => BadDtype
      case RankZero => BadRank
      case Size(n) =>
        if n > 0 && start + n > |flat| && !IsBytesCode(metas[0].code) then BadShape
        else Prepend([Arr(metas[0], flat[Min(start, |flat|)..Min(start + n, |flat|)])],
                     DecodeSingle(metas[1..], flat, start + n))
  }

  /** `parse_message_chunks` on a message that is not chunked: plain slicing. */
  method ParseSingle(metas: seq<Meta>, dataArr: seq<Byte>) returns (r: DecodeResult)
    ensures r == DecodeSingle(metas, dataArr, 0)
  {
    var start: nat, arrs: seq<Arr> := 0, [];
    for i := 0 to |metas|
      invariant DecodeSingle(metas, dataArr, 0) == Prepend(arrs, DecodeSingle(metas[i..], dataArr, start))
    {
      assert metas[i..][1..] == metas[i + 1..];
      match MetaSize(metas[i])
      case UnknownDtype => return BadDtype;
      case RankZero => return BadRank;
      case Size(size) =>
        if size > 0 && start + size > |dataArr| && !IsBytesCode(metas[i].code) { return BadShape; }
        var bytes := dataArr[Min(start, |dataArr|)..Min(start + size, |dataArr|)];
        PrependOne(arrs, Arr(metas[i], bytes), DecodeSingle(metas[i + 1..], dataArr, start + size));
        arrs := arrs + [Arr(metas[i], bytes)];
        start := start + size;
    }
    r := Arrays(arrs);
  }

  /** Slicing minds no missing bytes for this entry, or they are there. */
  predicate SliceAccepts(metas: seq<Meta>, n: nat, start: nat, i: nat)
    requires i < |metas| && KnownUpTo(metas, i + 1)
  {
    IsBytesCode(metas[i].code) || MetaSize(metas[i]).n == 0 || start + StartOf(metas, i + 1) <= n
  }

  predicate AllSlicesAccept(metas: seq<Meta>, n: nat, start: nat) {
    KnownUpTo(metas, |metas|) && forall i :: 0 <= i < |metas| ==> SliceAccepts(metas, n, start, i)
  }

  lemma SliceInTail(metas: seq<Meta>, n: nat, start: nat)
    requires metas != [] && MetaSize(metas[0]).Size?
    ensures KnownUpTo(metas, 1)
    ensures AllSlicesAccept(metas, n, start) <==>
      SliceAccepts(metas, n, start, 0) && AllSlicesAccept(metas[1..], n, start + MetaSize(metas[0]).n)
  {
    KnownInTail(metas, |metas| - 1);
    var tail, later := metas[1..], start + MetaSize(metas[0]).n;
    if KnownUpTo(metas, |metas|) {
      forall i | 1 <= i < |metas| ensures SliceAccepts(metas, n, start, i) <==> SliceAccepts(tail, n, later, i - 1) {
        KnownInTail(metas, i);
      }
      if AllSlicesAccept(metas, n, start) {
        forall i | 0 <= i < |tail| ensures SliceAccepts(tail, n, later, i) {
          assert SliceAccepts(metas, n, start, i + 1);
        }
      }
    }
  }

  /** When slicing succeeds. */
  lemma {:induction false} SingleSucceedsIff(metas: seq<Meta>, flat: seq<Byte>, start: nat)
    ensures DecodeSingle(metas, flat, start).Arrays? <==> AllSlicesAccept(metas, |flat|, start)
    decreases |metas|
  {
    if metas != [] && MetaSize(metas[0]).Size? {
      assert StartOf(metas, 0) == 0 && StartOf(metas, 1) == MetaSize(metas[0]).n;
      SliceInTail(metas, |flat|, start);
      SingleSucceedsIff(metas[1..], flat, start + MetaSize(metas[0]).n);
    }
  }

  /** As many bytes as there are at the place of entry `i`. */
  predicate IsSlice(metas: seq<Meta>, flat: seq<Byte>, start: nat, i: nat, a: Arr)
    requires i < |metas|
  {
    && KnownUpTo(metas, i + 1)
    && a == Arr(metas[i], flat[Min(start + StartOf(metas, i), |flat|)..Min(start + StartOf(metas, i + 1), |flat|)])
  }

  lemma SliceOfTail(metas: seq<Meta>, flat: seq<Byte>, start: nat, i: nat, a: Arr)
    requires 1 <= i < |metas| && MetaSize(metas[0]).Size?
    requires IsSlice(metas[1..], flat, start + MetaSize(metas[0]).n, i - 1, a)
    ensures IsSlice(metas, flat, start, i, a)
  {
    KnownInTail(metas, i);
    KnownInTail(metas, i - 1);
  }

  lemma SingleHead(metas: seq<Meta>, flat: seq<Byte>, start: nat)
    requires metas != [] && DecodeSingle(metas, flat, start).Arrays?
    ensures MetaSize(metas[0]).Size?
    ensures var n := MetaSize(metas[0]).n;
      && DecodeSingle(metas[1..], flat, start + n).Arrays?
      && DecodeSingle(metas, flat, start).arrays ==
        [Arr(metas[0], flat[Min(start, |flat|)..Min(start + n, |flat|)])]
        + DecodeSingle(metas[1..], flat, start + n).arrays
  {
  }

  /** And what it gives. */
  lemma {:induction false} SingleEntries(metas: seq<Meta>, flat: seq<Byte>, start: nat, i: nat)
    requires DecodeSingle(metas, flat, start).Arrays? && i < |metas|
    ensures i < |DecodeSingle(metas, flat, start).arrays|
    ensures IsSlice(metas, flat, start, i, DecodeSingle(metas, flat, start).arrays[i])
    decreases |metas|
  {
    SingleHead(metas, flat, start);
    var n, arrays := MetaSize(metas[0]).n, DecodeSingle(metas, flat, start).arrays;
    if i > 0 {
      SingleEntries(metas[1..], flat, start + n, i - 1);
      SliceOfTail(metas, flat, start, i, arrays[i]);
    } else {
      assert StartOf(metas, 0) == 0 && StartOf(metas, 1) == n;
    }
  }

  /** Slicing and the frame loop read the same arrays, when the bytes are there. */
  lemma {:induction false} SingleDecodes(metas: seq<Meta>, flat: seq<Byte>, start: nat)
    requires start <= |flat| && Decode(metas, flat[start..]).Arrays?
    ensures DecodeSingle(metas, flat, start) == Decode(metas, flat[start..])
  {
    if metas != [] {
      var n := MetaSize(metas[0]).n;
      DropDrop(flat, start, n);
      SliceOfSuffix(flat, start, 0, n);
      assert flat[start..][0..n] == flat[start..][..n];
      SingleDecodes(metas[1..], flat, start + n);
    }
  }

  // ---------------------------------------------------------------- the round trip

  /** Decoding the metadata against the arrays' bytes, with anything behind them, gives the arrays. */
  lemma {:induction false} DecodeFlat(arrays: seq<Arr>, rest: seq<Byte>)
    requires forall i :: 0 <= i < |arrays| ==> ValidArr(arrays[i])
    ensures Decode(Metas(arrays), Concat(Datas(arrays)) + rest) == Arrays(arrays)
  {
    if arrays != [] {
      var a, tail := arrays[0], Concat(Datas(arrays[1..]));
      assert Metas(arrays)[1..] == Metas(arrays[1..]);
      assert Datas(arrays)[1..] == Datas(arrays[1..]);
      var flat := Concat(Datas(arrays)) + rest;
      assert flat == a.data + (tail + rest);
      assert flat[..|a.data|] == a.data && flat[|a.data|..] == tail + rest;
      DecodeFlat(arrays[1..], rest);
      assert [a] + arrays[1..] == arrays;
    }
  }

  /** The payloads of the data frames carry the content in order; only a single frame is padded. */
  lemma PayloadsRebuild(flat: seq<Byte>, per: nat)
    requires per > 0
    ensures Concat(Payloads(flat, per)) == flat + Zeros(if 0 < |flat| < per then per - |flat| else 0)
  {
    var n := DivUp(|flat|, per);
    DivUpBounds(|flat|, per);
    PayloadsPrefix(flat, per, n);
    var payloads := Payloads(flat, per);
    assert payloads[..n] == payloads;
    assert Min(n * per, |flat|) == |flat| && flat[..|flat|] == flat;
    assert n == 0 <==> |flat| == 0;
  }

  /** Frames decode to exactly what was encoded, whatever the frame size. */
  lemma ChunkedRoundTrip(arrays: seq<Arr>, per: nat)
    requires per > 0 && forall i :: 0 <= i < |arrays| ==> ValidArr(arrays[i])
    ensures Decode(Metas(arrays), Concat(Payloads(Concat(Datas(arrays)), per))) == Arrays(arrays)
  {
    var flat := Concat(Datas(arrays));
    PayloadsRebuild(flat, per);
    DecodeFlat(arrays, Zeros(if 0 < |flat| < per then per - |flat| else 0));
  }
}
