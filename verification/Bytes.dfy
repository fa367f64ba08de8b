/**
 Byte strings: concatenation, slices, ceiling division, and the facts about them that the codecs need.
 */
module Bytes {

  type Byte = b: int | 0 <= b < 256

  datatype Option<+T> = None | Some(value: T)

  /** The concatenation of a list of sequences, in order. */
  function Concat<T>(parts: seq<seq<T>>): seq<T> {
    if parts == [] then [] else parts[0] + Concat(parts[1..])
  }

  lemma {:induction false} ConcatAppend<T>(a: seq<seq<T>>, b: seq<seq<T>>)
    ensures Concat(a + b) == Concat(a) + Concat(b)
  {
    if a == [] {
      assert a + b == b;
    } else {
      assert (a + b)[1..] == a[1..] + b;
      ConcatAppend(a[1..], b);
    }
  }

  lemma ConcatSnoc<T>(a: seq<seq<T>>, x: seq<T>)
    ensures Concat(a + [x]) == Concat(a) + x
  {
    ConcatAppend(a, [x]);
    assert Concat([x]) == x + Concat([][..]);
  }

  lemma ConcatTake<T>(parts: seq<seq<T>>, i: nat)
    requires i < |parts|
    ensures Concat(parts[..i + 1]) == Concat(parts[..i]) + parts[i]
  {
    assert parts[..i + 1] == parts[..i] + [parts[i]];
    ConcatSnoc(parts[..i], parts[i]);
  }

  /** Part `i` sits in the concatenation behind the parts before it. */
  lemma ConcatPart<T>(parts: seq<seq<T>>, i: nat)
    requires i < |parts|
    ensures var at := |Concat(parts[..i])|;
      at + |parts[i]| <= |Concat(parts)| && Concat(parts)[at..at + |parts[i]|] == parts[i]
    ensures |Concat(parts[..i + 1])| == |Concat(parts[..i])| + |parts[i]|
  {
    assert parts == parts[..i] + parts[i..];
    ConcatAppend(parts[..i], parts[i..]);
    ConcatTake(parts, i);
  }

  lemma Assoc<T>(a: seq<T>, b: seq<T>, c: seq<T>)
    ensures a + b + c == a + (b + c)
  {
  }

  lemma EmptyPrefix<T>(a: seq<T>)
    ensures [] + a == a
  {
  }

  lemma EmptySuffix<T>(a: seq<T>)
    ensures a + [] == a
  {
  }

  lemma TakeThenSlice<T>(a: seq<T>, i: nat, j: nat)
    requires i <= j <= |a|
    ensures a[..i] + a[i..j] == a[..j]
  {
  }

  lemma SliceOfSlice<T>(s: seq<T>, a: nat, b: nat, c: nat, d: nat)
    requires a <= b <= |s| && c <= d <= b - a
    ensures s[a..b][c..d] == s[a + c..a + d]
  {
    var t := s[a..b];
    assert forall k :: c <= k < d ==> t[k] == s[a + k];
  }

  lemma SliceOfSuffix<T>(s: seq<T>, c: nat, a: nat, b: nat)
    requires c <= |s| && a <= b <= |s| - c
    ensures s[c..][a..b] == s[c + a..c + b]
  {
  }

  lemma DropDrop<T>(s: seq<T>, c: nat, a: nat)
    requires c <= |s| && a <= |s| - c
    ensures s[c..][a..] == s[c + a..]
  {
  }

  /** Replacing bytes leaves what lies before them, and puts the new ones in their place. */
  lemma Splice<T>(s: seq<T>, p: nat, mid: seq<T>, a: nat, b: nat)
    requires p + |mid| <= |s| && a <= b <= p
    ensures (s[..p] + mid + s[p + |mid|..])[a..b] == s[a..b]
    ensures (s[..p] + mid + s[p + |mid|..])[p..p + |mid|] == mid
  {
  }

  /** Python's `min` on lengths. */
  function Min(a: int, b: int): int {
    if a <= b then a else b
  }

  /** `_div_up`, with Python's floor division (both operands are non-negative where it is called). */
  function DivUp(a: nat, b: nat): nat
    requires b > 0
  {
    (a + b - 1) / b
  }

  lemma MulMono(a: int, b: int, c: nat)
    requires a <= b
    ensures a * c <= b * c
  {
  }

  /** `i * size`, added up. */
  function Offset(size: nat, i: nat): nat {
    if i == 0 then 0 else Offset(size, i - 1) + size
  }

  lemma {:induction false} OffsetIsProduct(size: nat, i: nat)
    ensures Offset(size, i) == i * size
  {
    if i > 0 {
      OffsetIsProduct(size, i - 1);
      assert i * size == (i - 1) * size + size;
    }
  }

  lemma {:induction false} OffsetMonotone(size: nat, i: nat, j: nat)
    requires i <= j
    ensures Offset(size, i) <= Offset(size, j)
  {
    if i < j { OffsetMonotone(size, i, j - 1); }
  }

  /** The number of entries of a shape. */
  function Product(shape: seq<nat>): nat {
    if shape == [] then 1 else shape[0] * Product(shape[1..])
  }

  /** `DivUp(a, b)` is the least number of pieces of size `b` that hold `a`. */
  lemma DivUpBounds(a: nat, b: nat)
    requires b > 0
    ensures (DivUp(a, b) - 1) * b < a <= DivUp(a, b) * b || a == 0 == DivUp(a, b)
  {
    var n := a + b - 1;
    assert n == (n / b) * b + n % b;
    assert (DivUp(a, b) - 1) * b == (n / b) * b - b;
    assert a == 0 && n / b != 0 ==> (n / b) * b >= b;
  }

  /** `dst[at:at + n] = src[from:from + n]` */
  method CopyInto(dst: array<Byte>, at: nat, src: seq<Byte>, from: nat, n: nat)
    requires at + n <= dst.Length && from + n <= |src|
    modifies dst
    ensures dst[..] == old(dst[..])[..at] + src[from..from + n] + old(dst[..])[at + n..]
  {
    forall i | 0 <= i < n { dst[at + i] := src[from + i]; }
  }
}
