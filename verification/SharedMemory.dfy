/**
 The shared-memory layout: arrays at aligned offsets, the serialized skeleton behind them.
 */
module SharedMemory {
  import opened Bytes

  /** `align_offset`; an alignment of zero or less means none. */
  function AlignOffset(offset: nat, n: int): (r: nat)
    ensures offset <= r
    ensures n <= 0 ==> r == offset
  {
    if n <= 0 then offset
    else
      DivUpBounds(offset, n);
      assert n * DivUp(offset, n) == DivUp(offset, n) * n;
      n * DivUp(offset, n)
  }

  /** The aligned offset is the least multiple of `n` that is not below the offset. */
  lemma AlignIsLeast(offset: nat, n: nat, k: nat)
    requires n > 0
    ensures AlignOffset(offset, n) % n == 0
    ensures offset <= k * n ==> AlignOffset(offset, n) <= k * n
  {
    var q := DivUp(offset, n);
    DivUpBounds(offset, n);
    MultipleHasNoRest(q, n);
    if q <= k { MulMono(q, k, n); } else { MulMono(k, q - 1, n); }
  }

  /** The same by counting up, which is easier to reason with below. */
  function AlignUp(offset: nat, n: int): (r: nat)
    ensures offset <= r
    ensures n <= 0 ==> r == offset
    decreases offset
  {
    if n <= 0 || offset == 0 then offset else n + AlignUp(if offset <= n then 0 else offset - n, n)
  }

  lemma {:induction false} AlignUpIsAlignOffset(offset: nat, n: int)
    ensures AlignUp(offset, n) == AlignOffset(offset, n)
    decreases offset
  {
    if n > 0 {
      if offset > n {
        AlignUpIsAlignOffset(offset - n, n);
        AlignOneMore(offset - n, n);
      } else {
        AlignUpFirst(offset, n);
        AlignFirst(offset, n);
      }
    }
  }

  lemma AlignUpFirst(offset: nat, n: nat)
    requires offset <= n && n > 0
    ensures AlignUp(offset, n) == if offset == 0 then 0 else n
  {
    assert AlignUp(0, n) == 0;
  }

  lemma AlignFirst(offset: nat, n: nat)
    requires offset <= n && n > 0
    ensures AlignOffset(offset, n) == if offset == 0 then 0 else n
  {
    if offset > 0 { OnePieceIsEnough(offset, n); } else { QuotientIs(n - 1, n, 0); }
    assert n * 1 == n && n * 0 == 0;
  }

  lemma AlignOneMore(offset: nat, n: nat)
    requires n > 0
    ensures AlignOffset(offset + n, n) == n + AlignOffset(offset, n)
  {
    OneMorePiece(offset, n);
  }

  /** The quotient is the only number of whole divisors that fits. */
  lemma QuotientIs(x: nat, n: nat, q: nat)
    requires n > 0 && q * n <= x < q * n + n
    ensures x / n == q
  {
    var p := x / n;
    assert x == p * n + x % n;
    if p < q { MulMono(p + 1, q, n); }
    if q < p { MulMono(q + 1, p, n); }
  }

  lemma OneMorePiece(offset: nat, n: nat)
    requires n > 0
    ensures DivUp(offset + n, n) == DivUp(offset, n) + 1
    ensures n * DivUp(offset + n, n) == n + n * DivUp(offset, n)
  {
    var x := offset + n - 1;
    var q := x / n;
    assert x == q * n + x % n;
    assert (q + 1) * n == q * n + n;
    QuotientIs(x + n, n, q + 1);
    assert n * (q + 1) == n * q + n;
  }

  lemma OnePieceIsEnough(offset: nat, n: nat)
    requires 0 < offset <= n
    ensures DivUp(offset, n) == 1
  {
    QuotientIs(offset + n - 1, n, 1);
  }

  lemma MultipleHasNoRest(q: nat, n: nat)
    requires n > 0
    ensures (n * q) % n == 0
  {
    var p := n * q;
    assert p == n * (p / n) + p % n;
    assert n * (q - p / n) == p % n;
    if q - p / n >= 1 { MulMono(1, q - p / n, n); }
    if q - p / n <= -1 { MulMono(q - p / n, -1, n); }
  }

  // ---------------------------------------------------------------- the layout

  function Sizes(datas: seq<seq<Byte>>): seq<nat> {
    seq(|datas|, i requires 0 <= i < |datas| => |datas[i]|)
  }

  /** Where the first `i` regions end. */
  function EndOf(sizes: seq<nat>, i: nat, n: int): nat
    requires i <= |sizes|
    decreases i, 0
  {
    if i == 0 then 0 else StartOf(sizes, i - 1, n) + sizes[i - 1]
  }

  /** Where region `i` starts. */
  function StartOf(sizes: seq<nat>, i: nat, n: int): nat
    requires i < |sizes|
    decreases i, 1
  {
    AlignUp(EndOf(sizes, i, n), n)
  }

  /** Regions follow one another without overlap. */
  lemma {:induction false} RegionsAreDisjoint(sizes: seq<nat>, i: nat, j: nat, n: int)
    requires i < j <= |sizes|
    ensures StartOf(sizes, i, n) + sizes[i] <= EndOf(sizes, j, n)
    ensures j < |sizes| ==> StartOf(sizes, i, n) + sizes[i] <= StartOf(sizes, j, n)
    decreases j
  {
    if i + 1 < j { RegionsAreDisjoint(sizes, i, j - 1, n); }
  }

  lemma {:induction false} EndsGrow(sizes: seq<nat>, i: nat, j: nat, n: int)
    requires i <= |sizes| && j <= |sizes|
    ensures i <= j ==> EndOf(sizes, i, n) <= EndOf(sizes, j, n)
    decreases j
  {
    if i < j { EndsGrow(sizes, i, j - 1, n); }
  }

  function Sum(sizes: seq<nat>): nat {
    if sizes == [] then 0 else Sum(sizes[..|sizes| - 1]) + sizes[|sizes| - 1]
  }

  /** Padding only adds: the padded end is at least the sum of the sizes, and equal to it without alignment. */
  lemma {:induction false} PaddedEnd(sizes: seq<nat>, i: nat, n: int)
    requires i <= |sizes|
    ensures Sum(sizes[..i]) <= EndOf(sizes, i, n)
    ensures n <= 0 ==> Sum(sizes[..i]) == EndOf(sizes, i, n)
  {
    if i > 0 {
      PaddedEnd(sizes, i - 1, n);
      assert sizes[..i][..i - 1] == sizes[..i - 1];
    }
  }

  /** The memory after the first `i` arrays have been written; every array fits. */
  function Image(mem: seq<Byte>, datas: seq<seq<Byte>>, i: nat, n: int): (r: seq<Byte>)
    requires i <= |datas| && EndOf(Sizes(datas), i, n) <= |mem|
    ensures |r| == |mem|
  {
    if i == 0 then mem
    else
      var at := StartOf(Sizes(datas), i - 1, n);
      var before := Image(mem, datas, i - 1, n);
      before[..at] + datas[i - 1] + before[at + |datas[i - 1]|..]
  }

  lemma ImageStep(mem: seq<Byte>, datas: seq<seq<Byte>>, i: nat, n: int)
    requires 0 < i <= |datas| && EndOf(Sizes(datas), i, n) <= |mem|
    ensures var at, x := StartOf(Sizes(datas), i - 1, n), datas[i - 1];
      && EndOf(Sizes(datas), i - 1, n) <= at && at + |x| == EndOf(Sizes(datas), i, n)
      && var before := Image(mem, datas, i - 1, n);
      Image(mem, datas, i, n) == before[..at] + x + before[at + |x|..]
  {
    assert Sizes(datas)[i - 1] == |datas[i - 1]|;
  }

  /** The array written last is at its offset. */
  lemma ImageHoldsLast(mem: seq<Byte>, datas: seq<seq<Byte>>, i: nat, n: int)
    requires 0 < i <= |datas| && EndOf(Sizes(datas), i, n) <= |mem|
    ensures var at := StartOf(Sizes(datas), i - 1, n);
      at + |datas[i - 1]| == EndOf(Sizes(datas), i, n)
      && Image(mem, datas, i, n)[at..at + |datas[i - 1]|] == datas[i - 1]
  {
    ImageStep(mem, datas, i, n);
    Splice(Image(mem, datas, i - 1, n), StartOf(Sizes(datas), i - 1, n), datas[i - 1], 0, 0);
  }

  lemma OneWriteKeeps(mem: seq<Byte>, datas: seq<seq<Byte>>, j: nat, n: int, a: nat, b: nat)
    requires 0 < j <= |datas| && EndOf(Sizes(datas), j, n) <= |mem|
    requires a <= b <= EndOf(Sizes(datas), j - 1, n) <= |mem|
    ensures Image(mem, datas, j, n)[a..b] == Image(mem, datas, j - 1, n)[a..b]
  {
    ImageStep(mem, datas, j, n);
    Splice(Image(mem, datas, j - 1, n), StartOf(Sizes(datas), j - 1, n), datas[j - 1], a, b);
  }

  /** What lies in front of the later arrays stays. */
  lemma {:induction false} SliceIsKept(mem: seq<Byte>, datas: seq<seq<Byte>>, i: nat, j: nat, n: int, a: nat, b: nat)
    requires i <= j <= |datas| && EndOf(Sizes(datas), j, n) <= |mem|
    requires a <= b <= EndOf(Sizes(datas), i, n) <= |mem|
    ensures Image(mem, datas, j, n)[a..b] == Image(mem, datas, i, n)[a..b]
    decreases j
  {
    if i < j {
      EndsGrow(Sizes(datas), i, j - 1, n);
      EndsGrow(Sizes(datas), j - 1, j, n);
      SliceIsKept(mem, datas, i, j - 1, n, a, b);
      OneWriteKeeps(mem, datas, j, n, a, b);
    }
  }

  lemma LastIsKept(mem: seq<Byte>, datas: seq<seq<Byte>>, i: nat, j: nat, n: int)
    requires 0 < j <= i <= |datas| && EndOf(Sizes(datas), i, n) <= |mem|
    ensures var at := StartOf(Sizes(datas), j - 1, n);
      at + |datas[j - 1]| <= EndOf(Sizes(datas), i, n)
      && Image(mem, datas, i, n)[at..at + |datas[j - 1]|] == datas[j - 1]
  {
    var at := StartOf(Sizes(datas), j - 1, n);
    EndsGrow(Sizes(datas), j, i, n);
    ImageHoldsLast(mem, datas, j, n);
    SliceIsKept(mem, datas, j, i, n, at, at + |datas[j - 1]|);
  }

  /** Every array is at its offset, whatever was written after it. */
  lemma ImageHolds(mem: seq<Byte>, datas: seq<seq<Byte>>, i: nat, k: nat, n: int)
    requires k < i <= |datas| && EndOf(Sizes(datas), i, n) <= |mem|
    ensures var at := StartOf(Sizes(datas), k, n);
      at + |datas[k]| <= EndOf(Sizes(datas), i, n) && Image(mem, datas, i, n)[at..at + |datas[k]|] == datas[k]
  {
    LastIsKept(mem, datas, i, k + 1, n);
  }

  /** Nothing but the regions is written. */
  lemma {:induction false} ImageKeepsTheRest(mem: seq<Byte>, datas: seq<seq<Byte>>, i: nat, n: int, j: nat)
    requires i <= |datas| && EndOf(Sizes(datas), i, n) <= |mem| && j < |mem|
    requires forall k :: 0 <= k < i ==> !(StartOf(Sizes(datas), k, n) <= j < StartOf(Sizes(datas), k, n) + |datas[k]|)
    ensures Image(mem, datas, i, n)[j] == mem[j]
  {
    if i > 0 {
      ImageKeepsTheRest(mem, datas, i - 1, n, j);
      OneWriteKeepsByte(mem, datas, i, n, j);
    }
  }

  lemma OneWriteKeepsByte(mem: seq<Byte>, datas: seq<seq<Byte>>, i: nat, n: int, j: nat)
    requires 0 < i <= |datas| && EndOf(Sizes(datas), i - 1, n) <= EndOf(Sizes(datas), i, n) <= |mem| && j < |mem|
    requires !(StartOf(Sizes(datas), i - 1, n) <= j < StartOf(Sizes(datas), i - 1, n) + |datas[i - 1]|)
    ensures Image(mem, datas, i, n)[j] == Image(mem, datas, i - 1, n)[j]
  {
    ImageStep(mem, datas, i, n);
  }

  /** The memory after a successful write. */
  function Written(mem: seq<Byte>, datas: seq<seq<Byte>>, skeleton: seq<Byte>, n: int): seq<Byte>
    requires EndOf(Sizes(datas), |datas|, n) + |skeleton| <= |mem|
  {
    var end := EndOf(Sizes(datas), |datas|, n);
    var image := Image(mem, datas, |datas|, n);
    image[..end] + skeleton + image[end + |skeleton|..]
  }

  // ---------------------------------------------------------------- writer and reader

  /** `sum_array_nbytes` */
  method SumSizes(datas: seq<seq<Byte>>) returns (total: nat)
    ensures total == Sum(Sizes(datas))
  {
    total := 0;
    ghost var sizes := Sizes(datas);
    for i := 0 to |datas|
      invariant total == Sum(sizes[..i])
    {
      assert sizes[..i + 1][..i] == sizes[..i];
      total := total + |datas[i]|;
    }
    assert sizes[..|datas|] == sizes;
  }

  /** How many arrays from `i` on end inside a memory of this size, when no earlier one does not. */
  function FitCount(sizes: seq<nat>, n: int, size: nat, i: nat): (r: nat)
    requires i <= |sizes| && EndOf(sizes, i, n) <= size
    ensures i <= r <= |sizes| && EndOf(sizes, r, n) <= size
    ensures r < |sizes| ==> EndOf(sizes, r + 1, n) > size
    decreases |sizes| - i
  {
    if i == |sizes| || EndOf(sizes, i + 1, n) > size then i else FitCount(sizes, n, size, i + 1)
  }

  /** `data_to_pb_shmem`. The writer's own check ignores the padding; a region that does not fit is
      refused later, by the assignment, when the arrays in front of it are in the memory already.
      A pickled skeleton has at least two bytes. */
  method WriteShared(datas: seq<seq<Byte>>, skeleton: seq<Byte>, sharedMem: array<Byte>, alignNbit: int)
      returns (ok: bool)
    requires |skeleton| >= 2
    modifies sharedMem
    ensures ok <==> Fits(datas, skeleton, sharedMem.Length, alignNbit)
    ensures ok ==> sharedMem[..] == Written(old(sharedMem[..]), datas, skeleton, alignNbit)
    ensures !ok && !CheckAccepts(datas, skeleton, sharedMem.Length) ==> sharedMem[..] == old(sharedMem[..])
    ensures !ok && CheckAccepts(datas, skeleton, sharedMem.Length) ==>
      var count := FitCount(Sizes(datas), alignNbit, sharedMem.Length, 0);
      sharedMem[..] == Image(old(sharedMem[..]), datas, count, alignNbit)
  {
    ghost var sizes, mem := Sizes(datas), sharedMem[..];
    var total := SumSizes(datas);
    PaddedEnd(sizes, |datas|, alignNbit);
    assert sizes[..|datas|] == sizes;
    if total + |skeleton| > sharedMem.Length { return false; }
    var fits, start := WriteArrays(datas, sharedMem, alignNbit);
    if !fits { return false; }
    ok := WriteSkeleton(datas, skeleton, start, sharedMem, alignNbit, mem);
  }

  /** The loop over the arrays: those that end inside the memory are written, and the first other one that
      is not empty is refused. */
  method WriteArrays(datas: seq<seq<Byte>>, sharedMem: array<Byte>, alignNbit: int) returns (fits: bool, start: nat)
    modifies sharedMem
    ensures var count := FitCount(Sizes(datas), alignNbit, sharedMem.Length, 0);
      sharedMem[..] == Image(old(sharedMem[..]), datas, count, alignNbit)
    ensures fits ==> start == EndOf(Sizes(datas), |datas|, alignNbit)
    ensures fits && start <= sharedMem.Length ==> FitCount(Sizes(datas), alignNbit, sharedMem.Length, 0) == |datas|
    ensures !fits ==> EndOf(Sizes(datas), |datas|, alignNbit) > sharedMem.Length
  {
    ghost var sizes, mem, count := Sizes(datas), sharedMem[..], FitCount(Sizes(datas), alignNbit, sharedMem.Length, 0);
    start, fits := 0, true;
    for i := 0 to |datas|
      invariant start == EndOf(sizes, i, alignNbit)
      invariant start <= sharedMem.Length <==> i <= count
      invariant sharedMem[..] == Image(mem, datas, Min(i, count), alignNbit)
    {
      EndsGrow(sizes, count, i, alignNbit);
      fits, start := WriteRegion(datas, i, start, sharedMem, alignNbit, mem, Min(i, count));
      EndsGrow(sizes, i + 1, count, alignNbit);
      if !fits {
        EndsGrow(sizes, i + 1, |datas|, alignNbit);
        return;
      }
    }
    fits := true;
  }

  /** The skeleton goes right behind the last array. */
  method WriteSkeleton(datas: seq<seq<Byte>>, skeleton: seq<Byte>, end: nat, sharedMem: array<Byte>, alignNbit: int,
    ghost mem: seq<Byte>) returns (ok: bool)
    requires |mem| == sharedMem.Length && end == EndOf(Sizes(datas), |datas|, alignNbit)
    requires end <= sharedMem.Length ==> sharedMem[..] == Image(mem, datas, |datas|, alignNbit)
    modifies sharedMem
    ensures ok <==> end + |skeleton| <= sharedMem.Length
    ensures ok ==> sharedMem[..] == Written(mem, datas, skeleton, alignNbit)
    ensures !ok ==> sharedMem[..] == old(sharedMem[..])
  {
    ok := end + |skeleton| <= sharedMem.Length;
    if ok {
      assert skeleton[0..|skeleton|] == skeleton;
      CopyInto(sharedMem, end, skeleton, 0, |skeleton|);
    }
  }

  /** One array goes to its aligned offset; `done` arrays are in the memory. */
  method WriteRegion(datas: seq<seq<Byte>>, i: nat, end: nat, sharedMem: array<Byte>, alignNbit: int,
    ghost mem: seq<Byte>, ghost done: nat) returns (fits: bool, start: nat)
    requires i < |datas| && |mem| == sharedMem.Length && end == EndOf(Sizes(datas), i, alignNbit)
    requires done <= i && EndOf(Sizes(datas), done, alignNbit) <= |mem| && (end <= |mem| ==> done == i)
    requires sharedMem[..] == Image(mem, datas, done, alignNbit)
    modifies sharedMem
    ensures start == EndOf(Sizes(datas), i + 1, alignNbit)
    ensures !fits ==> start > sharedMem.Length
    ensures start <= sharedMem.Length ==> fits && sharedMem[..] == Image(mem, datas, i + 1, alignNbit)
    ensures start > sharedMem.Length ==> sharedMem[..] == old(sharedMem[..])
  {
    var at := AlignOffset(end, alignNbit);
    var size := |datas[i]|;
    AlignUpIsAlignOffset(end, alignNbit);
    RegionBounds(datas, i, alignNbit);
    start := at + size;
    fits := size == 0 || start <= sharedMem.Length;
    if start <= sharedMem.Length {
      CopyInto(sharedMem, at, datas[i], 0, size);
      assert datas[i][0..size] == datas[i];
      ImageStep(mem, datas, i + 1, alignNbit);
    }
  }

  lemma RegionBounds(datas: seq<seq<Byte>>, i: nat, n: int)
    requires i < |datas|
    ensures StartOf(Sizes(datas), i, n) == AlignUp(EndOf(Sizes(datas), i, n), n)
    ensures EndOf(Sizes(datas), i + 1, n) == StartOf(Sizes(datas), i, n) + |datas[i]|
    ensures EndOf(Sizes(datas), i, n) <= StartOf(Sizes(datas), i, n)
  {
  }

  /** The arrays that lie in a memory, by their lengths. */
  function Regions(mem: seq<Byte>, lengths: seq<nat>, i: nat, n: int): (r: seq<seq<Byte>>)
    requires i <= |lengths| && EndOf(lengths, i, n) <= |mem|
    ensures |r| == i
  {
    if i == 0 then []
    else
      var at := StartOf(lengths, i - 1, n);
      Regions(mem, lengths, i - 1, n) + [mem[at..at + lengths[i - 1]]]
  }

  /** `data_from_pb_shmem`: the lengths come from the metadata that travels outside the memory. A slice
      that comes out short cannot be reshaped or unpickled. */
  method ReadShared(lengths: seq<nat>, skeletonLength: nat, sharedMem: array<Byte>, alignNbit: int)
    returns (ok: bool, datas: seq<seq<Byte>>, skeleton: seq<Byte>)
    requires skeletonLength > 0
    ensures ok <==> EndOf(lengths, |lengths|, alignNbit) + skeletonLength <= sharedMem.Length
    ensures ok ==> datas == Regions(sharedMem[..], lengths, |lengths|, alignNbit)
    ensures ok ==>
      var end := EndOf(lengths, |lengths|, alignNbit); skeleton == sharedMem[..][end..end + skeletonLength]
  {
    ok, datas, skeleton := false, [], [];
    var start: nat := 0;
    for i := 0 to |lengths|
      invariant start == EndOf(lengths, i, alignNbit)
      invariant start <= sharedMem.Length ==> datas == Regions(sharedMem[..], lengths, i, alignNbit)
    {
      var at := AlignOffset(start, alignNbit);
      AlignUpIsAlignOffset(start, alignNbit);
      assert at == StartOf(lengths, i, alignNbit);
      start := at + lengths[i];
      if lengths[i] > 0 && start > sharedMem.Length {
        RegionsAreDisjoint(lengths, i, |lengths|, alignNbit);
        return;
      }
      datas := datas + [if start <= sharedMem.Length then sharedMem[..][at..start] else []];
    }
    if start + skeletonLength > sharedMem.Length { return; }
    skeleton := sharedMem[..][start..start + skeletonLength];
    ok := true;
  }

  /** Writer and reader agree: what is written is read back, from the same offsets. */
  lemma WrittenIsReadBack(mem: seq<Byte>, datas: seq<seq<Byte>>, skeleton: seq<Byte>, n: int)
    requires EndOf(Sizes(datas), |datas|, n) + |skeleton| <= |mem|
    ensures var written, end := Written(mem, datas, skeleton, n), EndOf(Sizes(datas), |datas|, n);
      && Regions(written, Sizes(datas), |datas|, n) == datas
      && written[end..end + |skeleton|] == skeleton
  {
    var written := Written(mem, datas, skeleton, n);
    forall k | 0 <= k < |datas|
      ensures HoldsArray(written, datas, n, k)
    {
      WrittenHolds(mem, datas, skeleton, n, k);
    }
    RegionsOf(written, datas, n, |datas|);
    assert datas[..|datas|] == datas;
  }

  lemma WrittenHolds(mem: seq<Byte>, datas: seq<seq<Byte>>, skeleton: seq<Byte>, n: int, k: nat)
    requires EndOf(Sizes(datas), |datas|, n) + |skeleton| <= |mem| && k < |datas|
    ensures var at := StartOf(Sizes(datas), k, n);
      at + |datas[k]| <= |mem| && Written(mem, datas, skeleton, n)[at..at + |datas[k]|] == datas[k]
  {
    ImageHolds(mem, datas, |datas|, k, n);
    var at := StartOf(Sizes(datas), k, n);
    Splice(Image(mem, datas, |datas|, n), EndOf(Sizes(datas), |datas|, n), skeleton, at, at + |datas[k]|);
  }

  /** The memory holds array `k` at its offset. */
  predicate HoldsArray(mem: seq<Byte>, datas: seq<seq<Byte>>, n: int, k: nat)
    requires k < |datas|
  {
    var at := StartOf(Sizes(datas), k, n);
    at + |datas[k]| <= |mem| && mem[at..at + |datas[k]|] == datas[k]
  }

  lemma OneMoreRegion(mem: seq<Byte>, datas: seq<seq<Byte>>, n: int, i: nat)
    requires i < |datas| && EndOf(Sizes(datas), i, n) <= |mem| && HoldsArray(mem, datas, n, i)
    ensures EndOf(Sizes(datas), i + 1, n) <= |mem|
    ensures Regions(mem, Sizes(datas), i + 1, n) == Regions(mem, Sizes(datas), i, n) + [datas[i]]
  {
    assert Sizes(datas)[i] == |datas[i]|;
  }

  /** A memory that holds every array at its offset gives the arrays back. */
  lemma {:induction false} RegionsOf(mem: seq<Byte>, datas: seq<seq<Byte>>, n: int, i: nat)
    requires i <= |datas| && forall k :: 0 <= k < i ==> HoldsArray(mem, datas, n, k)
    ensures EndOf(Sizes(datas), i, n) <= |mem|
    ensures Regions(mem, Sizes(datas), i, n) == datas[..i]
  {
    if i > 0 {
      RegionsOf(mem, datas, n, i - 1);
      OneMoreRegion(mem, datas, n, i - 1);
      assert datas[..i] == datas[..i - 1] + [datas[i - 1]];
    }
  }

  /** Every region would start at a multiple of the alignment by itself. */
  predicate AlignedAlready(sizes: seq<nat>, i: nat, n: int)
    requires i <= |sizes|
  {
    n <= 0 || forall k: nat :: k < i ==> Sum(sizes[..k]) % n == 0
  }

  lemma AlignedOffsetIff(offset: nat, n: nat)
    requires n > 0
    ensures AlignUp(offset, n) == offset <==> offset % n == 0
  {
    AlignUpIsAlignOffset(offset, n);
    AlignIsLeast(offset, n, offset / n);
    assert offset == n * (offset / n) + offset % n;
    assert n * (offset / n) == (offset / n) * n;
  }

  /** There is no padding exactly when the sizes in front of every region add up to a multiple of the
      alignment. */
  lemma {:induction false} NoPaddingIff(sizes: seq<nat>, i: nat, n: int)
    requires i <= |sizes|
    ensures EndOf(sizes, i, n) == Sum(sizes[..i]) <==> AlignedAlready(sizes, i, n)
  {
    PaddedEnd(sizes, i, n);
    if i > 0 && n > 0 {
      NoPaddingIff(sizes, i - 1, n);
      PaddedEnd(sizes, i - 1, n);
      assert sizes[..i][..i - 1] == sizes[..i - 1];
      AlignedOffsetIff(Sum(sizes[..i - 1]), n);
      assert AlignedAlready(sizes, i, n) <==> AlignedAlready(sizes, i - 1, n) && Sum(sizes[..i - 1]) % n == 0;
    }
  }

  /** The writer's own check accepts a memory of this size. */
  predicate CheckAccepts(datas: seq<seq<Byte>>, skeleton: seq<Byte>, size: nat) {
    Sum(Sizes(datas)) + |skeleton| <= size
  }

  /** The padded arrays and the skeleton fit into a memory of this size. */
  predicate Fits(datas: seq<seq<Byte>>, skeleton: seq<Byte>, size: nat, n: int) {
    EndOf(Sizes(datas), |datas|, n) + |skeleton| <= size
  }

  /** The writer's own check never refuses what fits, and it is exact, for every size of the memory, if
      and only if no region needs padding; so it is without alignment. */
  lemma SizeCheckIsExactIff(datas: seq<seq<Byte>>, skeleton: seq<Byte>, n: int)
    ensures forall size: nat :: Fits(datas, skeleton, size, n) ==> CheckAccepts(datas, skeleton, size)
    ensures (forall size: nat :: CheckAccepts(datas, skeleton, size) ==> Fits(datas, skeleton, size, n))
      <==> AlignedAlready(Sizes(datas), |datas|, n)
  {
    var sizes := Sizes(datas);
    PaddedEnd(sizes, |datas|, n);
    NoPaddingIff(sizes, |datas|, n);
    assert sizes[..|datas|] == sizes;
    var least := Sum(sizes) + |skeleton|;
    assert CheckAccepts(datas, skeleton, least);
    assert Fits(datas, skeleton, least, n) <==> EndOf(sizes, |datas|, n) <= Sum(sizes);
  }

  lemma SizeCheckMissesPadding()
    ensures CheckAccepts([[1], [2]], [0, 0], 8) && !Fits([[1], [2]], [0, 0], 8, 8)
  {
    var sizes := Sizes([[1], [2]]);
    assert sizes == [1, 1];
    assert StartOf(sizes, 0, 8) == 0;
    assert StartOf(sizes, 1, 8) == 8;
    assert sizes[..1] == [1] && sizes[..1][..0] == [];
  }
}
