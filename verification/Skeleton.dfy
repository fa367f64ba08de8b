/**
 Separating the arrays of a nested payload from its skeleton, and putting them back.
 */
module Skeleton {
  import opened Bytes
  import opened PbStream

  /** A Python payload: leaves, containers, the special leaves of the frontend, and what separation
      puts in their place. Dictionaries keep their insertion order. */
  datatype Py =
    | Null
    | Num(n: int)
    | Text(s: string)
    | ArrayLeaf(arg: Arg)
    | List(items: seq<Py>)
    | Tuple(items: seq<Py>)
    | Dict(entries: seq<Entry>)
    | Special(data: Py, flag: int)
    | TreeUid(encoded: string)
    | Placeholder(index: int, nbytes: nat, flag: int, data: Py)

  datatype Entry = Entry(key: string, value: Py)

  /** `json_index == ""` asks for placeholders; any other value is the reserved key. */
  datatype Mode = Mode(jsonIndex: string, handleUniqueTreeId: bool)

  // ---------------------------------------------------------------- extraction

  /** The arrays of a payload in traversal order. */
  function Leaves(x: Py): seq<Arg> {
    match x
    case ArrayLeaf(arg) => [arg]
    case List(items) => ItemLeaves(items)
    case Tuple(items) => ItemLeaves(items)
    case Dict(entries) => EntryLeaves(entries)
    case _ => []
  }

  function ItemLeaves(items: seq<Py>): seq<Arg> {
    if items == [] then [] else Leaves(items[0]) + ItemLeaves(items[1..])
  }

  function EntryLeaves(entries: seq<Entry>): seq<Arg> {
    if entries == [] then [] else Leaves(entries[0].value) + EntryLeaves(entries[1..])
  }

  function JsonIndex(key: string, value: Py, flag: int): Py {
    Dict([Entry(key, List([value, Num(flag)]))])
  }

  /** The skeleton of a payload when `n` arrays have been taken out before it. */
  function Skel(x: Py, n: nat, mode: Mode): Py {
    match x
    case ArrayLeaf(arg) =>
      if mode.jsonIndex != "" then JsonIndex(mode.jsonIndex, Num(n), 1) else Placeholder(n, |arg.data|, 1, Null)
    case Special(data, flag) =>
      if mode.jsonIndex != "" then JsonIndex(mode.jsonIndex, data, flag) else Placeholder(0, 0, flag, data)
    case TreeUid(encoded) => if mode.handleUniqueTreeId then Text(encoded) else x
    case List(items) => List(SkelItems(items, n, mode))
    case Tuple(items) => Tuple(SkelItems(items, n, mode))
    case Dict(entries) => Dict(SkelEntries(entries, n, mode))
    case _ => x
  }

  function SkelItems(items: seq<Py>, n: nat, mode: Mode): (r: seq<Py>)
    ensures |r| == |items|
  {
    if items == [] then []
    else [Skel(items[0], n, mode)] + SkelItems(items[1..], n + |Leaves(items[0])|, mode)
  }

  function SkelEntries(entries: seq<Entry>, n: nat, mode: Mode): (r: seq<Entry>)
    ensures |r| == |entries|
  {
    if entries == [] then []
    else
      [Entry(entries[0].key, Skel(entries[0].value, n, mode))]
      + SkelEntries(entries[1..], n + |Leaves(entries[0].value)|, mode)
  }

  /** `_ExtractContext` and the recursive extraction that appends to its `arrays`. */
  class ExtractContext {
    const mode: Mode
    var arrays: seq<Arg>

    constructor (mode: Mode)
      ensures arrays == [] && this.mode == mode
    {
      this.mode := mode;
      arrays := [];
    }

    method Extract(data: Py) returns (skeleton: Py)
      modifies this
      ensures arrays == old(arrays) + Leaves(data)
      ensures skeleton == Skel(data, |old(arrays)|, mode)
      decreases data, 1
    {
      match data
      case List(items) =>
        var res := ExtractItems(items);
        skeleton := List(res);
      case Tuple(items) =>
        var res := ExtractItems(items);
        skeleton := Tuple(res);
      case Dict(entries) =>
        var res := ExtractEntries(entries);
        skeleton := Dict(res);
      case ArrayLeaf(arg) =>
        skeleton := if mode.jsonIndex != "" then JsonIndex(mode.jsonIndex, Num(|arrays|), 1)
                    else Placeholder(|arrays|, |arg.data|, 1, Null);
        arrays := arrays + [arg];
      case _ =>
        skeleton := Skel(data, 0, mode);
    }

    method ExtractItems(items: seq<Py>) returns (res: seq<Py>)
      modifies this
      ensures arrays == old(arrays) + ItemLeaves(items)
      ensures res == SkelItems(items, |old(arrays)|, mode)
      decreases items, 0
    {
      res := [];
      ghost var start := |arrays|;
      for i := 0 to |items|
        invariant arrays + ItemLeaves(items[i..]) == old(arrays) + ItemLeaves(items)
        invariant res + SkelItems(items[i..], |arrays|, mode) == SkelItems(items, start, mode)
      {
        ghost var before, left := arrays, res;
        assert items[i..][1..] == items[i + 1..];
        Assoc(before, Leaves(items[i]), ItemLeaves(items[i + 1..]));
        var e := Extract(items[i]);
        Assoc(left, [e], SkelItems(items[i + 1..], |arrays|, mode));
        res := res + [e];
      }
      assert items[|items|..] == [];
      EmptySuffix(arrays);
      EmptySuffix(res);
    }

    method ExtractEntries(entries: seq<Entry>) returns (res: seq<Entry>)
      modifies this
      ensures arrays == old(arrays) + EntryLeaves(entries)
      ensures res == SkelEntries(entries, |old(arrays)|, mode)
      decreases entries, 0
    {
      res := [];
      ghost var start := |arrays|;
      for i := 0 to |entries|
        invariant arrays + EntryLeaves(entries[i..]) == old(arrays) + EntryLeaves(entries)
        invariant res + SkelEntries(entries[i..], |arrays|, mode) == SkelEntries(entries, start, mode)
      {
        ghost var before, left := arrays, res;
        assert entries[i..][1..] == entries[i + 1..];
        Assoc(before, Leaves(entries[i].value), EntryLeaves(entries[i + 1..]));
        var v := Extract(entries[i].value);
        Assoc(left, [Entry(entries[i].key, v)], SkelEntries(entries[i + 1..], |arrays|, mode));
        res := res + [Entry(entries[i].key, v)];
      }
      assert entries[|entries|..] == [];
      EmptySuffix(arrays);
      EmptySuffix(res);
    }
  }

  // ---------------------------------------------------------------- putting back

  predicate HasArray(flag: int) { flag % 2 == 1 }

  /** JSON_ONLY (2) or FREEZE (4) */
  predicate HasSpecial(flag: int) { flag / 2 % 2 == 1 || flag / 4 % 2 == 1 }

  /** A Python list index; None stands for the exception. */
  function At(arrays: seq<Arg>, index: Py): Option<Py> {
    if !index.Num? then None
    else if 0 <= index.n < |arrays| then Some(ArrayLeaf(arrays[index.n]))
    else if 0 <= index.n + |arrays| < |arrays| then Some(ArrayLeaf(arrays[index.n + |arrays|]))
    else None
  }

  function Find(entries: seq<Entry>, key: string): Option<Py> {
    if entries == [] then None
    else if entries[0].key == key then Some(entries[0].value)
    else Find(entries[1..], key)
  }

  /** `is_json_index` */
  predicate IsJsonIndex(x: Py, key: string) {
    x.Dict? && Find(x.entries, key).Some?
  }

  lemma FindSmaller(entries: seq<Entry>, key: string)
    ensures Find(entries, key).Some? ==> exists i :: 0 <= i < |entries| && entries[i].value == Find(entries, key).value
  {
    if entries != [] && entries[0].key != key {
      FindSmaller(entries[1..], key);
      assert forall i :: 0 <= i < |entries| - 1 ==> entries[1..][i] == entries[i + 1];
    } else {
      assert Find(entries, key).Some? ==> entries[0].value == Find(entries, key).value;
    }
  }

  /** `_put_arrays_to_data` on the root of a skeleton. */
  function Put(arrays: seq<Arg>, skeleton: Py, key: string): Option<Py>
    decreases skeleton, 1
  {
    match skeleton
    case List(items) => (match PutItems(arrays, items, key) case None => None case Some(r) => Some(List(r)))
    case Tuple(items) => (match PutItems(arrays, items, key) case None => None case Some(r) => Some(Tuple(r)))
    case Dict(entries) => (match PutEntries(arrays, entries, key) case None => None case Some(r) => Some(Dict(r)))
    case Placeholder(index, _, flag, data) =>
      if HasArray(flag) then At(arrays, Num(index))
      else if HasSpecial(flag) then Some(Special(data, flag))
      else Some(data)
    case _ => Some(skeleton)
  }

  /** What becomes of an element of a list, tuple or dictionary. */
  function PutElement(arrays: seq<Arg>, e: Py, key: string): Option<Py>
    decreases e, 2
  {
    if e.Placeholder? then
      if HasArray(e.flag) then At(arrays, Num(e.index))
      else if HasSpecial(e.flag) then Some(Special(e.data, e.flag))
      else Put(arrays, e.data, key)
    else if IsJsonIndex(e, key) then
      FindSmaller(e.entries, key);
      var v := Find(e.entries, key).value;
      if !(v.List? || v.Tuple?) || |v.items| < 2 || !v.items[1].Num? then None
      else
        var flag := v.items[1].n;
        if HasArray(flag) then At(arrays, v.items[0])
        else if HasSpecial(flag) then Some(Special(v.items[0], flag))
        else Put(arrays, v.items[0], key)
    else Put(arrays, e, key)
  }

  function PutItems(arrays: seq<Arg>, items: seq<Py>, key: string): (r: Option<seq<Py>>)
    decreases items, 0
  {
    if items == [] then Some([])
    else match PutElement(arrays, items[0], key)
      case None => None
      case Some(x) => match PutItems(arrays, items[1..], key) case None => None case Some(r) => Some([x] + r)
  }

  function PutEntries(arrays: seq<Arg>, entries: seq<Entry>, key: string): Option<seq<Entry>>
    decreases entries, 0
  {
    if entries == [] then Some([])
    else match PutElement(arrays, entries[0].value, key)
      case None => None
      case Some(x) =>
        match PutEntries(arrays, entries[1..], key)
        case None => None
        case Some(r) => Some([Entry(entries[0].key, x)] + r)
  }

  // ---------------------------------------------------------------- the round trip

  /** What comes back as an element: special leaves must be flagged JSON_ONLY or FREEZE and not as
      arrays, no dictionary may use the reserved key, and there may be no placeholder and no id that
      separation rewrites. What is inside a special leaf does not matter. */
  predicate Survives(x: Py, mode: Mode, key: string) {
    match x
    case List(items) => ItemsSurvive(items, mode, key)
    case Tuple(items) => ItemsSurvive(items, mode, key)
    case Dict(entries) => Find(entries, key).None? && EntriesSurvive(entries, mode, key)
    case Special(_, flag) => HasSpecial(flag) && !HasArray(flag)
    case TreeUid(_) => !mode.handleUniqueTreeId
    case Placeholder(_, _, _, _) => false
    case _ => true
  }

  predicate ItemsSurvive(items: seq<Py>, mode: Mode, key: string) {
    items == [] || (Survives(items[0], mode, key) && ItemsSurvive(items[1..], mode, key))
  }

  predicate EntriesSurvive(entries: seq<Entry>, mode: Mode, key: string) {
    entries == [] || (Survives(entries[0].value, mode, key) && EntriesSurvive(entries[1..], mode, key))
  }

  /** What comes back as a whole payload: the root dictionary is not looked at for the reserved key,
      but with a reserved key a leaf that separation replaces cannot be the root. */
  predicate SurvivesAsRoot(x: Py, mode: Mode, key: string) {
    if x.Dict? then EntriesSurvive(x.entries, mode, key)
    else Survives(x, mode, key) && (mode.jsonIndex == "" || !(x.ArrayLeaf? || x.Special?))
  }

  /** The arrays taken out of `leaves` sit in `arrays` from index `n` on; there may be more. */
  predicate Holds(arrays: seq<Arg>, n: nat, leaves: seq<Arg>) {
    n + |leaves| <= |arrays| && arrays[n..n + |leaves|] == leaves
  }

  lemma HoldsSplit(arrays: seq<Arg>, n: nat, a: seq<Arg>, b: seq<Arg>)
    requires Holds(arrays, n, a + b)
    ensures Holds(arrays, n, a) && Holds(arrays, n + |a|, b)
  {
    var both := arrays[n..n + |a + b|];
    assert both[..|a|] == a && both[|a|..] == b;
    assert arrays[n..n + |a|] == both[..|a|];
    assert arrays[n + |a|..n + |a| + |b|] == both[|a|..];
  }

  /** A nesting depth that neither separating nor putting back increases. */
  function Depth(x: Py): nat {
    match x
    case List(items) => 1 + ItemsDepth(items)
    case Tuple(items) => 1 + ItemsDepth(items)
    case Dict(entries) => 1 + EntriesDepth(entries)
    case ArrayLeaf(_) => 2
    case Special(data, _) => 2 + Depth(data)
    case Placeholder(_, _, _, data) => 2 + Depth(data)
    case _ => 0
  }

  function ItemsDepth(items: seq<Py>): nat {
    if items == [] then 0 else Max(Depth(items[0]), ItemsDepth(items[1..]))
  }

  function EntriesDepth(entries: seq<Entry>): nat {
    if entries == [] then 0 else Max(Depth(entries[0].value), EntriesDepth(entries[1..]))
  }

  function Max(a: nat, b: nat): nat {
    if a <= b then b else a
  }

  lemma {:induction false} FindDepth(entries: seq<Entry>, key: string)
    requires Find(entries, key).Some?
    ensures Depth(Find(entries, key).value) <= EntriesDepth(entries)
  {
    if entries[0].key != key { FindDepth(entries[1..], key); }
  }

  lemma {:induction false} SkelDepth(x: Py, n: nat, mode: Mode)
    ensures Depth(Skel(x, n, mode)) <= Depth(x)
    decreases x, 1
  {
    match x
    case List(items) => SkelItemsDepth(items, n, mode);
    case Tuple(items) => SkelItemsDepth(items, n, mode);
    case Dict(entries) => SkelEntriesDepth(entries, n, mode);
    case ArrayLeaf(_) => JsonIndexDepth(mode.jsonIndex, Num(n), 1);
    case Special(data, flag) => JsonIndexDepth(mode.jsonIndex, data, flag);
    case _ =>
  }

  lemma {:induction false} SkelItemsDepth(items: seq<Py>, n: nat, mode: Mode)
    ensures ItemsDepth(SkelItems(items, n, mode)) <= ItemsDepth(items)
    decreases items, 0
  {
    if items != [] {
      SkelDepth(items[0], n, mode);
      SkelItemsDepth(items[1..], n + |Leaves(items[0])|, mode);
      assert SkelItems(items, n, mode)[1..] == SkelItems(items[1..], n + |Leaves(items[0])|, mode);
    }
  }

  lemma {:induction false} SkelEntriesDepth(entries: seq<Entry>, n: nat, mode: Mode)
    ensures EntriesDepth(SkelEntries(entries, n, mode)) <= EntriesDepth(entries)
    decreases entries, 0
  {
    if entries != [] {
      var n' := n + |Leaves(entries[0].value)|;
      SkelDepth(entries[0].value, n, mode);
      SkelEntriesDepth(entries[1..], n', mode);
      assert SkelEntries(entries, n, mode)[1..] == SkelEntries(entries[1..], n', mode);
    }
  }

  lemma JsonIndexDepth(key: string, value: Py, flag: int)
    ensures Depth(JsonIndex(key, value, flag)) == 2 + Depth(value)
  {
    assert [value, Num(flag)][1..] == [Num(flag)];
    assert ItemsDepth([Num(flag)]) == 0;
    assert ItemsDepth([value, Num(flag)]) == Depth(value);
    var e := Entry(key, List([value, Num(flag)]));
    assert Depth(e.value) == 1 + Depth(value);
    assert [e][1..] == [] && EntriesDepth([e]) == Depth(e.value);
  }

  /** Putting back does not make anything deeper, whatever is put back. */
  lemma {:induction false} PutDepth(arrays: seq<Arg>, s: Py, key: string)
    ensures Put(arrays, s, key).Some? ==> Depth(Put(arrays, s, key).value) <= Depth(s)
    decreases s, 1
  {
    match s
    case List(items) => PutItemsDepth(arrays, items, key);
    case Tuple(items) => PutItemsDepth(arrays, items, key);
    case Dict(entries) => PutEntriesDepth(arrays, entries, key);
    case _ =>
  }

  /** A dictionary that is taken for a separated leaf gives something else than a dictionary, or
      something that is less deep. */
  lemma {:induction false} PutElementDepth(arrays: seq<Arg>, e: Py, key: string)
    ensures PutElement(arrays, e, key).Some? ==>
      && Depth(PutElement(arrays, e, key).value) <= Depth(e)
      && (e.Placeholder? && !HasArray(e.flag) && !HasSpecial(e.flag)
          ==> Depth(PutElement(arrays, e, key).value) <= Depth(e.data))
      && (IsJsonIndex(e, key) && PutElement(arrays, e, key).value.Dict?
          ==> Depth(PutElement(arrays, e, key).value) < Depth(e))
    decreases e, 2
  {
    if e.Placeholder? {
      PutDepth(arrays, e.data, key);
    } else if IsJsonIndex(e, key) {
      FindSmaller(e.entries, key);
      FindDepth(e.entries, key);
      var v := Find(e.entries, key).value;
      if (v.List? || v.Tuple?) && v.items != [] { PutDepth(arrays, v.items[0], key); }
    } else {
      PutDepth(arrays, e, key);
    }
  }

  lemma {:induction false} PutItemsDepth(arrays: seq<Arg>, items: seq<Py>, key: string)
    ensures PutItems(arrays, items, key).Some? ==> ItemsDepth(PutItems(arrays, items, key).value) <= ItemsDepth(items)
    decreases items, 0
  {
    if items != [] {
      PutElementDepth(arrays, items[0], key);
      PutItemsDepth(arrays, items[1..], key);
      if PutItems(arrays, items, key).Some? {
        assert PutItems(arrays, items, key).value[1..] == PutItems(arrays, items[1..], key).value;
      }
    }
  }

  lemma {:induction false} PutEntriesDepth(arrays: seq<Arg>, entries: seq<Entry>, key: string)
    ensures PutEntries(arrays, entries, key).Some?
        ==> EntriesDepth(PutEntries(arrays, entries, key).value) <= EntriesDepth(entries)
    decreases entries, 0
  {
    if entries != [] {
      PutElementDepth(arrays, entries[0].value, key);
      PutEntriesDepth(arrays, entries[1..], key);
      if PutEntries(arrays, entries, key).Some? {
        assert PutEntries(arrays, entries, key).value[1..] == PutEntries(arrays, entries[1..], key).value;
      }
    }
  }

  /** Without placeholders and reserved keys there is nothing to put back. */
  lemma {:induction false} PutIdentity(arrays: seq<Arg>, x: Py, mode: Mode, key: string)
    requires Survives(x, mode, key)
    ensures Put(arrays, x, key) == Some(x) && PutElement(arrays, x, key) == Some(x)
    decreases x, 1
  {
    match x
    case List(items) => PutItemsIdentity(arrays, items, mode, key);
    case Tuple(items) => PutItemsIdentity(arrays, items, mode, key);
    case Dict(entries) => PutEntriesIdentity(arrays, entries, mode, key);
    case _ =>
  }

  lemma {:induction false} PutItemsIdentity(arrays: seq<Arg>, items: seq<Py>, mode: Mode, key: string)
    requires ItemsSurvive(items, mode, key)
    ensures PutItems(arrays, items, key) == Some(items)
    decreases items, 0
  {
    if items != [] {
      PutIdentity(arrays, items[0], mode, key);
      PutItemsIdentity(arrays, items[1..], mode, key);
      assert items == [items[0]] + items[1..];
    }
  }

  lemma {:induction false} PutEntriesIdentity(arrays: seq<Arg>, entries: seq<Entry>, mode: Mode, key: string)
    requires EntriesSurvive(entries, mode, key)
    ensures PutEntries(arrays, entries, key) == Some(entries)
    decreases entries, 0
  {
    if entries != [] {
      PutIdentity(arrays, entries[0].value, mode, key);
      PutEntriesIdentity(arrays, entries[1..], mode, key);
      assert entries == [entries[0]] + entries[1..];
    }
  }

  lemma JsonIndexIsOne(key: string, value: Py, flag: int)
    ensures IsJsonIndex(JsonIndex(key, value, flag), key)
    ensures Find(JsonIndex(key, value, flag).entries, key).value == List([value, Num(flag)])
  {
  }

  /** A leaf that separation replaces comes back as an element exactly when its flag says so. */
  lemma PutLeafElement(arrays: seq<Arg>, x: Py, n: nat, mode: Mode, key: string)
    requires x.ArrayLeaf? || x.Special?
    requires mode.jsonIndex in {"", key} && Holds(arrays, n, Leaves(x))
    ensures PutElement(arrays, Skel(x, n, mode), key) == Some(x) <==> Survives(x, mode, key)
  {
    if x.ArrayLeaf? {
      JsonIndexIsOne(key, Num(n), 1);
      assert arrays[n] == arrays[n..n + |Leaves(x)|][0];
    } else {
      JsonIndexIsOne(key, x.data, x.flag);
      PutDepth(arrays, x.data, key);
    }
  }

  /** A placeholder never comes back. */
  lemma PutPlaceholder(arrays: seq<Arg>, x: Py, key: string)
    requires x.Placeholder?
    ensures PutElement(arrays, x, key) != Some(x) && Put(arrays, x, key) != Some(x)
  {
    PutElementDepth(arrays, x, key);
    assert x.data < x;
  }

  /** An element that uses the reserved key never comes back. */
  lemma PutReserved(arrays: seq<Arg>, x: Py, n: nat, mode: Mode, key: string)
    requires x.Dict? && Find(x.entries, key).Some?
    ensures PutElement(arrays, Skel(x, n, mode), key) != Some(x)
  {
    SkelKeepsKeys(x.entries, n, mode, key);
    PutElementDepth(arrays, Skel(x, n, mode), key);
    SkelDepth(x, n, mode);
  }

  /** Separation keeps the keys of a dictionary. */
  lemma {:induction false} SkelKeepsKeys(entries: seq<Entry>, n: nat, mode: Mode, key: string)
    ensures Find(SkelEntries(entries, n, mode), key).None? <==> Find(entries, key).None?
  {
    if entries != [] {
      var rest := SkelEntries(entries[1..], n + |Leaves(entries[0].value)|, mode);
      SkelKeepsKeys(entries[1..], n + |Leaves(entries[0].value)|, mode, key);
      assert SkelEntries(entries, n, mode)[1..] == rest;
    }
  }

  /** Putting back what was separated restores an element exactly when it survives; any list that
      holds the arrays at their indices will do. */
  lemma {:induction false} PutSkelElement(arrays: seq<Arg>, x: Py, n: nat, mode: Mode, key: string)
    requires mode.jsonIndex in {"", key} && Holds(arrays, n, Leaves(x))
    ensures PutElement(arrays, Skel(x, n, mode), key) == Some(x) <==> Survives(x, mode, key)
    decreases x, 2
  {
    match x
    case List(items) => PutSkelItems(arrays, items, n, mode, key);
    case Tuple(items) => PutSkelItems(arrays, items, n, mode, key);
    case Dict(entries) =>
      SkelKeepsKeys(entries, n, mode, key);
      if Find(entries, key).Some? { PutReserved(arrays, x, n, mode, key); }
      PutSkelEntries(arrays, entries, n, mode, key);
    case ArrayLeaf(_) => PutLeafElement(arrays, x, n, mode, key);
    case Special(_, _) => PutLeafElement(arrays, x, n, mode, key);
    case Placeholder(_, _, _, _) => PutPlaceholder(arrays, x, key);
    case _ =>
  }

  lemma {:induction false} PutSkelItems(arrays: seq<Arg>, items: seq<Py>, n: nat, mode: Mode, key: string)
    requires mode.jsonIndex in {"", key} && Holds(arrays, n, ItemLeaves(items))
    ensures PutItems(arrays, SkelItems(items, n, mode), key) == Some(items)
      <==> ItemsSurvive(items, mode, key)
    decreases items, 0
  {
    if items != [] {
      var n' := n + |Leaves(items[0])|;
      HoldsSplit(arrays, n, Leaves(items[0]), ItemLeaves(items[1..]));
      PutSkelElement(arrays, items[0], n, mode, key);
      PutSkelItems(arrays, items[1..], n', mode, key);
      assert SkelItems(items, n, mode)[1..] == SkelItems(items[1..], n', mode);
      assert items == [items[0]] + items[1..];
    }
  }

  lemma {:induction false} PutSkelEntries(arrays: seq<Arg>, entries: seq<Entry>, n: nat, mode: Mode, key: string)
    requires mode.jsonIndex in {"", key} && Holds(arrays, n, EntryLeaves(entries))
    ensures PutEntries(arrays, SkelEntries(entries, n, mode), key) == Some(entries)
      <==> EntriesSurvive(entries, mode, key)
    decreases entries, 0
  {
    if entries != [] {
      var head, n' := entries[0].value, n + |Leaves(entries[0].value)|;
      HoldsSplit(arrays, n, Leaves(head), EntryLeaves(entries[1..]));
      PutSkelElement(arrays, head, n, mode, key);
      PutSkelEntries(arrays, entries[1..], n', mode, key);
      assert SkelEntries(entries, n, mode)[1..] == SkelEntries(entries[1..], n', mode);
      assert entries == [entries[0]] + entries[1..];
    }
  }

  /** The round trip of a whole payload, for every payload: it succeeds exactly when the payload
      survives as a root. */
  lemma SeparationRoundTrip(arrays: seq<Arg>, x: Py, mode: Mode, key: string)
    requires mode.jsonIndex in {"", key} && Leaves(x) <= arrays
    ensures Put(arrays, Skel(x, 0, mode), key) == Some(x) <==> SurvivesAsRoot(x, mode, key)
  {
    assert arrays[0..|Leaves(x)|] == Leaves(x);
    match x
    case List(items) => PutSkelItems(arrays, items, 0, mode, key);
    case Tuple(items) => PutSkelItems(arrays, items, 0, mode, key);
    case Dict(entries) => PutSkelEntries(arrays, entries, 0, mode, key);
    case Special(data, _) => assert data < x;
    case Placeholder(_, _, _, _) => PutPlaceholder(arrays, x, key);
    case _ =>
  }

  /** The payload with each id of a component replaced by its encoded text. */
  function Textual(x: Py): Py {
    match x
    case TreeUid(encoded) => Text(encoded)
    case List(items) => List(TextualItems(items))
    case Tuple(items) => Tuple(TextualItems(items))
    case Dict(entries) => Dict(TextualEntries(entries))
    case _ => x
  }

  function TextualItems(items: seq<Py>): seq<Py> {
    if items == [] then [] else [Textual(items[0])] + TextualItems(items[1..])
  }

  function TextualEntries(entries: seq<Entry>): seq<Entry> {
    if entries == [] then []
    else [Entry(entries[0].key, Textual(entries[0].value))] + TextualEntries(entries[1..])
  }

  /** Ids are separated like their text. */
  lemma {:induction false} SkelOfTextual(x: Py, n: nat, mode: Mode)
    requires mode.handleUniqueTreeId
    ensures Leaves(Textual(x)) == Leaves(x) && Skel(Textual(x), n, mode) == Skel(x, n, mode)
    decreases x, 1
  {
    match x
    case List(items) => SkelOfTextualItems(items, n, mode);
    case Tuple(items) => SkelOfTextualItems(items, n, mode);
    case Dict(entries) => SkelOfTextualEntries(entries, n, mode);
    case _ =>
  }

  lemma {:induction false} SkelOfTextualItems(items: seq<Py>, n: nat, mode: Mode)
    requires mode.handleUniqueTreeId
    ensures ItemLeaves(TextualItems(items)) == ItemLeaves(items)
    ensures SkelItems(TextualItems(items), n, mode) == SkelItems(items, n, mode)
    decreases items, 0
  {
    if items != [] {
      var head, rest := Textual(items[0]), TextualItems(items[1..]);
      SkelOfTextual(items[0], n, mode);
      SkelOfTextualItems(items[1..], n + |Leaves(items[0])|, mode);
      assert ([head] + rest)[1..] == rest;
    }
  }

  lemma {:induction false} SkelOfTextualEntries(entries: seq<Entry>, n: nat, mode: Mode)
    requires mode.handleUniqueTreeId
    ensures EntryLeaves(TextualEntries(entries)) == EntryLeaves(entries)
    ensures SkelEntries(TextualEntries(entries), n, mode) == SkelEntries(entries, n, mode)
    decreases entries, 0
  {
    if entries != [] {
      var head, rest := Entry(entries[0].key, Textual(entries[0].value)), TextualEntries(entries[1..]);
      SkelOfTextual(entries[0].value, n, mode);
      SkelOfTextualEntries(entries[1..], n + |Leaves(entries[0].value)|, mode);
      assert ([head] + rest)[1..] == rest;
    }
  }

  /** The way of every websocket message: the ids come back as their encoded text, and apart from that the
      payload is restored under the same condition. */
  lemma IdsComeBackAsText(arrays: seq<Arg>, x: Py, mode: Mode, key: string)
    requires mode.handleUniqueTreeId && mode.jsonIndex in {"", key} && Leaves(x) <= arrays
    ensures Put(arrays, Skel(x, 0, mode), key) == Some(Textual(x)) <==> SurvivesAsRoot(Textual(x), mode, key)
  {
    SkelOfTextual(x, 0, mode);
    SeparationRoundTrip(arrays, Textual(x), mode, key);
  }

  /** A dictionary that uses the reserved key is taken for a separated leaf: with placeholders and the
      empty key, as `data_from_pb` calls it for pickled messages, `{"": 5}` inside a list is an error. */
  lemma ReservedKeyIsLost()
    ensures var x := List([Dict([Entry("", Num(5))])]);
      Put([], Skel(x, 0, Mode("", false)), "") == None
  {
    var e := Dict([Entry("", Num(5))]);
    assert SkelEntries([Entry("", Num(5))], 0, Mode("", false)) == [Entry("", Num(5))];
    assert Skel(e, 0, Mode("", false)) == e;
    assert SkelItems([e], 0, Mode("", false)) == [e];
    assert PutElement([], e, "") == None;
  }
}
