/**
 Dividing a large list or dictionary node into balanced folders.
 */
module Folders {
  import opened Bytes
  import Decimal

  datatype Kind = ListKind | DictKind | ListFolder | DictFolder | Leaf

  /** `JsonLikeNode`, as far as division reads and writes it; ids are given by their parts. */
  datatype Node = Node(id: seq<string>, name: string, kind: Kind, cnt: nat, realId: seq<string>, start: nat,
      keys: seq<string>)

  /** How many children a division makes, and how many entries each of them holds at most. */
  datatype Division = Division(numChild: nat, size: nat)

  /** The swap bounds the number of children by the divisor. */
  function Divide(cnt: nat, divisor: nat): Division
    requires divisor > 0
  {
    var n := DivUp(cnt, divisor);
    if n > divisor then Division(divisor, n) else Division(n, divisor)
  }

  /** The entries of child `i`. */
  function ChildCount(cnt: nat, d: Division, i: nat): int {
    Min(cnt - Offset(d.size, i), d.size)
  }

  /** Where child `i` starts; behind the last child, the end. */
  function Start(cnt: nat, d: Division, i: nat): nat {
    Min(Offset(d.size, i), cnt)
  }

  predicate IsDict(k: Kind) { k.DictKind? || k.DictFolder? }

  predicate IsList(k: Kind) { k.ListKind? || k.ListFolder? }

  predicate IsFolder(k: Kind) { k.ListFolder? || k.DictFolder? }

  /** What a division promises; everything below only uses this. */
  predicate Covers(cnt: nat, d: Division) {
    && d.size > 0 && cnt <= Offset(d.size, d.numChild)
    && (if cnt == 0 then d.numChild == 0 else d.numChild > 0 && Offset(d.size, d.numChild - 1) < cnt)
  }

  /** No child is empty, and together the children hold everything. */
  lemma DivideCovers(cnt: nat, divisor: nat)
    requires divisor > 0
    ensures Covers(cnt, Divide(cnt, divisor)) && Divide(cnt, divisor).numChild <= divisor
    ensures cnt > 0 ==> (Divide(cnt, divisor).numChild >= 2 <==> cnt > divisor >= 2)
  {
    var n, d := DivUp(cnt, divisor), Divide(cnt, divisor);
    DivUpBounds(cnt, divisor);
    OffsetIsProduct(d.size, d.numChild);
    if cnt > 0 {
      OffsetIsProduct(d.size, d.numChild - 1);
      NumberOfPieces(cnt, divisor);
    }
    SwappedProducts(n, divisor);
  }

  /** The smaller one of the divisor and the number of pieces is the number of children, and the larger one
      their size. */
  lemma DivideSwaps(cnt: nat, divisor: nat)
    requires divisor > 0
    ensures var d := Divide(cnt, divisor);
      && d.numChild <= d.size
      && (d == Division(DivUp(cnt, divisor), divisor) || d == Division(divisor, DivUp(cnt, divisor)))
  {
  }

  /** With `n > divisor` pieces of size `divisor`, all but one of `divisor` pieces of size `n` hold less
      than all but one of the former. */
  lemma SwappedProducts(n: nat, divisor: nat)
    ensures divisor * n == n * divisor
    ensures n > divisor ==> (divisor - 1) * n < (n - 1) * divisor
  {
    assert (divisor - 1) * n == divisor * n - n;
    assert (n - 1) * divisor == n * divisor - divisor;
  }

  lemma NumberOfPieces(cnt: nat, divisor: nat)
    requires cnt > 0 && divisor > 0
    ensures DivUp(cnt, divisor) >= 2 <==> cnt > divisor
    ensures divisor == 1 ==> DivUp(cnt, divisor) == cnt
  {
    DivUpBounds(cnt, divisor);
    var n := DivUp(cnt, divisor);
    assert n == 1 ==> n * divisor == divisor;
    if n >= 2 { MulMono(1, n - 1, divisor); }
  }

  lemma ChildIsNotEmpty(cnt: nat, d: Division, i: nat)
    requires Covers(cnt, d) && i < d.numChild
    ensures Offset(d.size, i) < cnt
    ensures 0 < ChildCount(cnt, d, i) <= d.size
    ensures Start(cnt, d, i) == Offset(d.size, i)
    ensures Start(cnt, d, i + 1) == Start(cnt, d, i) + ChildCount(cnt, d, i)
  {
    OffsetMonotone(d.size, i, d.numChild - 1);
    if i + 1 < d.numChild { OffsetMonotone(d.size, i + 1, d.numChild - 1); }
  }

  /** A Python slice of the keys. */
  function KeySlice(keys: seq<string>, a: nat, b: nat): seq<string>
    requires a <= b
  {
    keys[Min(a, |keys|)..Min(b, |keys|)]
  }

  /** Child `i` of a division. */
  function Child(node: Node, d: Division, start: nat, i: nat): Node
    requires Covers(node.cnt, d) && i < d.numChild
  {
    ChildIsNotEmpty(node.cnt, d, i);
    var c, at := ChildCount(node.cnt, d, i), Start(node.cnt, d, i);
    Node(node.id + [Decimal.Print(i)], Decimal.Print(i), if IsDict(node.kind) then DictFolder else ListFolder, c,
         if IsFolder(node.kind) then node.realId else node.id, start + at,
         if IsDict(node.kind) then KeySlice(node.keys, at, at + c) else [])
  }

  /** The children from `i` on. */
  function ChildrenFrom(node: Node, d: Division, start: nat, i: nat): seq<Node>
    requires Covers(node.cnt, d) && i <= d.numChild
    decreases d.numChild - i
  {
    if i == d.numChild then [] else [Child(node, d, start, i)] + ChildrenFrom(node, d, start, i + 1)
  }

  function Children(node: Node, divisor: nat, start: nat): seq<Node>
    requires divisor > 0
  {
    if !IsDict(node.kind) && !IsList(node.kind) then []
    else
      DivideCovers(node.cnt, divisor);
      ChildrenFrom(node, Divide(node.cnt, divisor), start, 0)
  }

  /** `_get_divided_tree`. A divisor of zero is a ZeroDivisionError. */
  method GetDividedTree(node: Node, divisor0: nat, start: nat) returns (res: seq<Node>)
    requires divisor0 > 0
    ensures res == Children(node, divisor0, start)
  {
    var divisor, numChild := divisor0, DivUp(node.cnt, divisor0);
    if numChild > divisor { numChild, divisor := divisor, numChild; }
    assert Division(numChild, divisor) == Divide(node.cnt, divisor0);
    DivideCovers(node.cnt, divisor0);
    if !IsDict(node.kind) && !IsList(node.kind) { return []; }
    res := MakeChildren(node, numChild, divisor, start);
  }

  /** The loop over the children. */
  method MakeChildren(node: Node, numChild: nat, divisor: nat, start: nat) returns (res: seq<Node>)
    requires Covers(node.cnt, Division(numChild, divisor)) && (IsDict(node.kind) || IsList(node.kind))
    ensures res == ChildrenFrom(node, Division(numChild, divisor), start, 0)
  {
    ghost var d := Division(numChild, divisor);
    var count: nat, total := 0, node.cnt;
    var realId := if IsFolder(node.kind) then node.realId else node.id;
    res := [];
    for i := 0 to numChild
      invariant count == Start(total, d, i)
      invariant res + ChildrenFrom(node, d, start, i) == ChildrenFrom(node, d, start, 0)
    {
      ChildIsNotEmpty(node.cnt, d, i);
      var thisCnt := Min(total - count, divisor);
      var child := MakeChild(node, i, thisCnt, realId, start, count, d);
      Assoc(res, [child], ChildrenFrom(node, d, start, i + 1));
      res := res + [child];
      count := count + thisCnt;
    }
    EmptySuffix(res);
  }

  /** The loop body: one folder. */
  method MakeChild(node: Node, i: nat, thisCnt: nat, realId: seq<string>, start: nat, count: nat, ghost d: Division)
      returns (child: Node)
    requires Covers(node.cnt, d) && i < d.numChild && (IsDict(node.kind) || IsList(node.kind))
    requires count == Start(node.cnt, d, i) && thisCnt == ChildCount(node.cnt, d, i) && count + thisCnt <= node.cnt
    requires realId == if IsFolder(node.kind) then node.realId else node.id
    ensures child == Child(node, d, start, i)
  {
    child := Node(node.id + [Decimal.Print(i)], Decimal.Print(i), if IsDict(node.kind) then DictFolder else ListFolder,
                  thisCnt, realId, start + count,
                  if IsDict(node.kind) then KeySlice(node.keys, count, count + thisCnt) else []);
  }

  // ---------------------------------------------------------------- what a division gives

  /** Nodes tile a range: none is empty, and each starts where the one before it ends. */
  predicate Tiles(nodes: seq<Node>, from: nat, to: nat) {
    if nodes == [] then from == to
    else nodes[0].start == from && nodes[0].cnt > 0 && Tiles(nodes[1..], from + nodes[0].cnt, to)
  }

  function KeysOf(nodes: seq<Node>): seq<string> {
    if nodes == [] then [] else nodes[0].keys + KeysOf(nodes[1..])
  }

  /** A child covers the range from its own start to the start of the next child. */
  lemma ChildSpan(node: Node, d: Division, start: nat, i: nat)
    requires Covers(node.cnt, d) && i < d.numChild
    ensures var child := Child(node, d, start, i);
      && child.start == start + Start(node.cnt, d, i) && child.cnt > 0
      && child.start + child.cnt == start + Start(node.cnt, d, i + 1)
  {
    ChildIsNotEmpty(node.cnt, d, i);
  }

  lemma LastStart(cnt: nat, d: Division)
    requires Covers(cnt, d)
    ensures Start(cnt, d, d.numChild) == cnt && Start(cnt, d, 0) == 0
  {
  }

  lemma {:induction false} ChildrenTileFrom(node: Node, d: Division, start: nat, i: nat)
    requires Covers(node.cnt, d) && i <= d.numChild
    ensures |ChildrenFrom(node, d, start, i)| == d.numChild - i
    ensures Tiles(ChildrenFrom(node, d, start, i), start + Start(node.cnt, d, i), start + node.cnt)
    decreases d.numChild - i
  {
    if i == d.numChild {
      LastStart(node.cnt, d);
    } else {
      ChildSpan(node, d, start, i);
      ChildrenTileFrom(node, d, start, i + 1);
      TilesCons(Child(node, d, start, i), ChildrenFrom(node, d, start, i + 1), start + node.cnt);
    }
  }

  lemma TilesCons(node: Node, rest: seq<Node>, to: nat)
    requires node.cnt > 0 && Tiles(rest, node.start + node.cnt, to)
    ensures Tiles([node] + rest, node.start, to)
  {
    assert ([node] + rest)[1..] == rest;
  }

  /** And its keys are the parent's keys of that range. */
  lemma ChildKeys(node: Node, d: Division, start: nat, i: nat)
    requires Covers(node.cnt, d) && i < d.numChild && IsDict(node.kind)
    ensures Start(node.cnt, d, i) <= Start(node.cnt, d, i + 1)
    ensures Child(node, d, start, i).keys == KeySlice(node.keys, Start(node.cnt, d, i), Start(node.cnt, d, i + 1))
  {
    ChildIsNotEmpty(node.cnt, d, i);
  }

  lemma KeysCons(node: Node, rest: seq<Node>)
    ensures KeysOf([node] + rest) == node.keys + KeysOf(rest)
  {
    assert ([node] + rest)[1..] == rest;
  }

  lemma {:induction false} ChildrenKeysFrom(node: Node, d: Division, start: nat, i: nat)
    requires Covers(node.cnt, d) && i <= d.numChild && IsDict(node.kind)
    ensures KeysOf(ChildrenFrom(node, d, start, i)) == KeySlice(node.keys, Start(node.cnt, d, i), node.cnt)
    decreases d.numChild - i
  {
    if i == d.numChild {
      LastStart(node.cnt, d);
    } else {
      ChildKeys(node, d, start, i);
      ChildrenKeysFrom(node, d, start, i + 1);
      KeysCons(Child(node, d, start, i), ChildrenFrom(node, d, start, i + 1));
      JoinKeySlices(node.keys, Start(node.cnt, d, i), Start(node.cnt, d, i + 1), node.cnt);
    }
  }

  lemma JoinKeySlices(keys: seq<string>, a: nat, b: nat, c: nat)
    requires a <= b <= c
    ensures KeySlice(keys, a, b) + KeySlice(keys, b, c) == KeySlice(keys, a, c)
  {
  }

  /** One division: at most `divisor` children, none empty, tiling the parent's range in order, their
      keys making up the parent's. */
  lemma DivisionTiles(node: Node, divisor: nat, start: nat)
    requires divisor > 0 && (IsDict(node.kind) || IsList(node.kind))
    ensures |Children(node, divisor, start)| <= divisor
    ensures Tiles(Children(node, divisor, start), start, start + node.cnt)
    ensures IsDict(node.kind) && |node.keys| == node.cnt ==> KeysOf(Children(node, divisor, start)) == node.keys
  {
    DivideCovers(node.cnt, divisor);
    LastStart(node.cnt, Divide(node.cnt, divisor));
    ChildrenTileFrom(node, Divide(node.cnt, divisor), start, 0);
    if IsDict(node.kind) { ChildrenKeysFrom(node, Divide(node.cnt, divisor), start, 0); }
  }

  /** Every child is smaller than its parent exactly when the parent is divisible by a divisor of at
      least two: one child alone would be as large as the parent. */
  lemma ChildrenAreSmallerIff(cnt: nat, divisor: nat)
    requires cnt > 0 && divisor > 0
    ensures (forall i: nat :: i < Divide(cnt, divisor).numChild ==> ChildCount(cnt, Divide(cnt, divisor), i) < cnt)
      <==> cnt > divisor >= 2
  {
    var d := Divide(cnt, divisor);
    DivideCovers(cnt, divisor);
    if d.numChild >= 2 {
      SeveralAreSmaller(cnt, d);
    } else {
      ChildIsNotEmpty(cnt, d, 0);
      assert ChildCount(cnt, d, 0) == cnt;
    }
  }

  lemma SeveralAreSmaller(cnt: nat, d: Division)
    requires Covers(cnt, d) && d.numChild >= 2
    ensures d.size < cnt
  {
    OffsetMonotone(d.size, 1, d.numChild - 1);
    assert Offset(d.size, 1) == d.size;
  }

  // ---------------------------------------------------------------- dividing all the way down

  /** The folders that are left when a list, a dictionary or a folder that starts at `start` has been
      divided and so has every divisible folder below it (`_is_divisible`). */
  function Leaves(node: Node, start: nat, divisor: nat): seq<Node>
    requires divisor >= 2 && (IsDict(node.kind) || IsList(node.kind))
    decreases node.cnt, 0
  {
    if node.cnt <= divisor then [node]
    else
      DivideCovers(node.cnt, divisor);
      LeavesOf(node, start, divisor, Divide(node.cnt, divisor), 0)
  }

  /** The leaves below the children from `i` on; a folder starts where it says it does. */
  function LeavesOf(node: Node, start: nat, divisor: nat, d: Division, i: nat): seq<Node>
    requires divisor >= 2 && (IsDict(node.kind) || IsList(node.kind))
    requires Covers(node.cnt, d) && d.numChild >= 2 && i <= d.numChild
    decreases node.cnt, 0, d.numChild - i
  {
    if i == d.numChild then []
    else
      SeveralAreSmaller(node.cnt, d);
      var child := Child(node, d, start, i);
      Leaves(child, child.start, divisor) + LeavesOf(node, start, divisor, d, i + 1)
  }

  lemma {:induction false} TilesAppend(a: seq<Node>, b: seq<Node>, from: nat, mid: nat, to: nat)
    requires Tiles(a, from, mid) && Tiles(b, mid, to)
    ensures Tiles(a + b, from, to)
    decreases |a|
  {
    if a == [] {
      assert a + b == b;
    } else {
      assert (a + b)[1..] == a[1..] + b;
      TilesAppend(a[1..], b, from + a[0].cnt, mid, to);
    }
  }

  lemma {:induction false} KeysAppend(a: seq<Node>, b: seq<Node>)
    ensures KeysOf(a + b) == KeysOf(a) + KeysOf(b)
    decreases |a|
  {
    if a == [] {
      assert a + b == b;
    } else {
      assert (a + b)[1..] == a[1..] + b;
      KeysAppend(a[1..], b);
      Assoc(a[0].keys, KeysOf(a[1..]), KeysOf(b));
    }
  }

  predicate AllAtMost(nodes: seq<Node>, divisor: nat) {
    forall i :: 0 <= i < |nodes| ==> nodes[i].cnt <= divisor
  }

  /** Dividing again and again ends, and the folders that are left hold at most `divisor` entries each
      and tile the whole range in order: for a folder from its own start, for a list or dictionary that
      is divided at all from the given one. */
  lemma {:induction false} LeavesTile(node: Node, start: nat, divisor: nat)
    requires divisor >= 2 && node.cnt > 0 && (IsDict(node.kind) || IsList(node.kind))
    requires node.start == start || node.cnt > divisor
    ensures Tiles(Leaves(node, start, divisor), start, start + node.cnt)
        && AllAtMost(Leaves(node, start, divisor), divisor)
    decreases node.cnt, 0
  {
    if node.cnt > divisor {
      DivideCovers(node.cnt, divisor);
      LastStart(node.cnt, Divide(node.cnt, divisor));
      LeavesOfTile(node, start, divisor, Divide(node.cnt, divisor), 0);
    } else {
      assert [node][1..] == [];
    }
  }

  lemma {:induction false} LeavesOfTile(node: Node, start: nat, divisor: nat, d: Division, i: nat)
    requires divisor >= 2 && (IsDict(node.kind) || IsList(node.kind))
    requires Covers(node.cnt, d) && d.numChild >= 2 && i <= d.numChild
    ensures Tiles(LeavesOf(node, start, divisor, d, i), start + Start(node.cnt, d, i), start + node.cnt)
    ensures AllAtMost(LeavesOf(node, start, divisor, d, i), divisor)
    decreases node.cnt, 0, d.numChild - i
  {
    if i == d.numChild {
      LastStart(node.cnt, d);
    } else {
      SeveralAreSmaller(node.cnt, d);
      ChildSpan(node, d, start, i);
      var child := Child(node, d, start, i);
      LeavesTile(child, child.start, divisor);
      LeavesOfTile(node, start, divisor, d, i + 1);
      TilesAppend(Leaves(child, child.start, divisor), LeavesOf(node, start, divisor, d, i + 1),
        child.start, child.start + child.cnt, start + node.cnt);
    }
  }

  /** The keys of a dictionary that knows all of them are divided over the leaves in order. */
  lemma {:induction false} LeavesKeys(node: Node, start: nat, divisor: nat)
    requires divisor >= 2 && IsDict(node.kind) && |node.keys| == node.cnt
    ensures KeysOf(Leaves(node, start, divisor)) == node.keys
    decreases node.cnt, 0
  {
    if node.cnt > divisor {
      DivideCovers(node.cnt, divisor);
      LastStart(node.cnt, Divide(node.cnt, divisor));
      LeavesOfKeys(node, start, divisor, Divide(node.cnt, divisor), 0);
    } else {
      KeysCons(node, []);
      EmptySuffix(node.keys);
      EmptySuffix([node]);
    }
  }

  lemma {:induction false} LeavesOfKeys(node: Node, start: nat, divisor: nat, d: Division, i: nat)
    requires divisor >= 2 && IsDict(node.kind) && |node.keys| == node.cnt
    requires Covers(node.cnt, d) && d.numChild >= 2 && i <= d.numChild
    ensures KeysOf(LeavesOf(node, start, divisor, d, i)) == KeySlice(node.keys, Start(node.cnt, d, i), node.cnt)
    decreases node.cnt, 0, d.numChild - i
  {
    if i == d.numChild {
      LastStart(node.cnt, d);
    } else {
      SeveralAreSmaller(node.cnt, d);
      ChildIsNotEmpty(node.cnt, d, i);
      ChildKeys(node, d, start, i);
      var child := Child(node, d, start, i);
      LeavesKeys(child, child.start, divisor);
      LeavesOfKeys(node, start, divisor, d, i + 1);
      KeysAppend(Leaves(child, child.start, divisor), LeavesOf(node, start, divisor, d, i + 1));
      JoinKeySlices(node.keys, Start(node.cnt, d, i), Start(node.cnt, d, i + 1), node.cnt);
    }
  }

  // ---------------------------------------------------------------- the ids of the folders

  lemma FirstChild(node: Node, d: Division, start: nat, from: nat)
    requires Covers(node.cnt, d) && from < d.numChild
    ensures ChildrenFrom(node, d, start, from) == [Child(node, d, start, from)] + ChildrenFrom(node, d, start, from + 1)
  {
  }

  lemma {:induction false} ChildOf(node: Node, d: Division, start: nat, from: nat, i: nat)
    requires Covers(node.cnt, d) && from <= i < d.numChild
    ensures i - from < |ChildrenFrom(node, d, start, from)|
    ensures ChildrenFrom(node, d, start, from)[i - from] == Child(node, d, start, i)
    decreases i - from
  {
    var children := ChildrenFrom(node, d, start, from);
    FirstChild(node, d, start, from);
    if i > from {
      ChildOf(node, d, start, from + 1, i);
      assert children[i - from] == children[1..][i - from - 1];
    }
  }

  /** The node that a list, a dictionary or one of its folders stands for. */
  function Owner(node: Node): seq<string> {
    if IsFolder(node.kind) then node.realId else node.id
  }

  /** `folder` is a part of `node`, called `name`: its id is the node's with the name behind it. */
  predicate IsFolderOf(folder: Node, node: Node, name: string) {
    && folder.id == node.id + [name] && folder.name == name
    && folder.realId == Owner(node)
    && folder.kind == if IsDict(node.kind) then DictFolder else ListFolder
  }

  /** The children are folders of the node, numbered, and so with different ids. */
  lemma ChildrenAreFolders(node: Node, divisor: nat, start: nat, i: nat, j: nat)
    requires divisor > 0 && (IsDict(node.kind) || IsList(node.kind))
    requires i < |Children(node, divisor, start)| && j < |Children(node, divisor, start)|
    ensures IsFolderOf(Children(node, divisor, start)[i], node, Decimal.Print(i))
    ensures Children(node, divisor, start)[i].id == Children(node, divisor, start)[j].id <==> i == j
  {
    var d := Divide(node.cnt, divisor);
    DivideCovers(node.cnt, divisor);
    assert Children(node, divisor, start) == ChildrenFrom(node, d, start, 0);
    ChildIsFolder(node, d, start, i);
    ChildIsFolder(node, d, start, j);
    NumberedIdsDiffer(node.id, i, j);
  }

  lemma ChildIsFolder(node: Node, d: Division, start: nat, i: nat)
    requires Covers(node.cnt, d) && i < |ChildrenFrom(node, d, start, 0)|
    ensures IsFolderOf(ChildrenFrom(node, d, start, 0)[i], node, Decimal.Print(i))
  {
    ChildrenTileFrom(node, d, start, 0);
    ChildOf(node, d, start, 0, i);
  }

  lemma NumberedIdsDiffer(id: seq<string>, i: nat, j: nat)
    ensures id + [Decimal.Print(i)] == id + [Decimal.Print(j)] <==> i == j
  {
    assert (id + [Decimal.Print(i)])[|id|] == Decimal.Print(i) && (id + [Decimal.Print(j)])[|id|] == Decimal.Print(j);
    Decimal.ParsePrint(i);
    Decimal.ParsePrint(j);
  }

  /** Everything below a node stands for the same list or dictionary and has an id that continues the
      node's. */
  predicate Below(nodes: seq<Node>, node: Node) {
    forall i :: 0 <= i < |nodes| ==>
      && node.id <= nodes[i].id && Owner(nodes[i]) == Owner(node) && (IsDict(nodes[i].kind) <==> IsDict(node.kind))
  }

  predicate DistinctIds(nodes: seq<Node>) {
    forall i, j :: 0 <= i < j < |nodes| ==> nodes[i].id != nodes[j].id
  }

  /** The ids go on with the number of a child from `from` on. */
  ghost predicate BelowChildren(nodes: seq<Node>, node: Node, from: nat) {
    forall i :: 0 <= i < |nodes| ==> exists k: nat :: from <= k && node.id + [Decimal.Print(k)] <= nodes[i].id
  }

  /** The folders that are left have different ids, and each still names the list or dictionary that all of
      them are parts of. */
  lemma {:induction false} LeavesAreParts(node: Node, start: nat, divisor: nat)
    requires divisor >= 2 && (IsDict(node.kind) || IsList(node.kind))
    ensures Below(Leaves(node, start, divisor), node) && DistinctIds(Leaves(node, start, divisor))
    decreases node.cnt, 0
  {
    if node.cnt > divisor {
      DivideCovers(node.cnt, divisor);
      LeavesOfAreParts(node, start, divisor, Divide(node.cnt, divisor), 0);
    }
  }

  lemma {:induction false} LeavesOfAreParts(node: Node, start: nat, divisor: nat, d: Division, i: nat)
    requires divisor >= 2 && (IsDict(node.kind) || IsList(node.kind))
    requires Covers(node.cnt, d) && d.numChild >= 2 && i <= d.numChild
    ensures var leaves := LeavesOf(node, start, divisor, d, i);
      Below(leaves, node) && DistinctIds(leaves) && BelowChildren(leaves, node, i)
    decreases node.cnt, 0, d.numChild - i
  {
    if i < d.numChild {
      SeveralAreSmaller(node.cnt, d);
      ChildIsNotEmpty(node.cnt, d, i);
      var child := Child(node, d, start, i);
      LeavesAreParts(child, child.start, divisor);
      LeavesOfAreParts(node, start, divisor, d, i + 1);
      JoinParts(node, child, i, Leaves(child, child.start, divisor), LeavesOf(node, start, divisor, d, i + 1));
    }
  }

  lemma JoinParts(node: Node, child: Node, i: nat, a: seq<Node>, b: seq<Node>)
    requires IsFolderOf(child, node, Decimal.Print(i)) && Below(a, child) && DistinctIds(a)
    requires Below(b, node) && DistinctIds(b) && BelowChildren(b, node, i + 1)
    ensures Below(a + b, node) && DistinctIds(a + b) && BelowChildren(a + b, node, i)
  {
    forall m | 0 <= m < |a| ensures node.id <= a[m].id && node.id + [Decimal.Print(i)] <= a[m].id {
      PrefixOfPrefix(node.id, Decimal.Print(i), a[m].id);
    }
    forall m, n | 0 <= m < |a| && 0 <= n < |b| ensures a[m].id != b[n].id {
      var k: nat :| i + 1 <= k && node.id + [Decimal.Print(k)] <= b[n].id;
      PrefixOfPrefix(node.id, Decimal.Print(k), b[n].id);
      NumberedIdsDiffer(node.id, i, k);
    }
    forall m | 0 <= m < |a + b| ensures exists k: nat :: i <= k && node.id + [Decimal.Print(k)] <= (a + b)[m].id {
      if m < |a| {
        assert node.id + [Decimal.Print(i)] <= (a + b)[m].id;
      } else {
        var k: nat :| i + 1 <= k && node.id + [Decimal.Print(k)] <= b[m - |a|].id;
        assert node.id + [Decimal.Print(k)] <= (a + b)[m].id;
      }
    }
  }

  lemma PrefixOfPrefix(id: seq<string>, part: string, longer: seq<string>)
    requires id + [part] <= longer
    ensures id <= longer && longer[|id|] == part
  {
    assert (id + [part])[|id|] == part;
  }
}
