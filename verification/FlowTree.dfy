/**
 The nested flow model: every node gets a global id made of the names above it and its own id, and
 the dictionary from global ids to frontend paths leads back to the node.
 */
module FlowTree {
  import opened Bytes
  import TreeId

  /** A reference to another node: its id and the names above it, and where it is in the model. */
  datatype Ref = NoRef | Ref(nodeId: string, importPath: Option<seq<string>>, fePath: Option<seq<string>>)

  /** A node, with or without a flow nested in it; a flow is a dictionary in insertion order. */
  datatype Node =
    | Plain(id: string, name: string, ref: Ref)
    | Owner(id: string, name: string, ref: Ref, nodes: seq<Entry>)

  datatype Entry = Entry(key: string, node: Node)

  /** What is stored for a node: the names above it, and its path in the model. */
  datatype Placement = Placement(importPath: seq<string>, frontendPath: seq<string>)

  type Places = map<string, Placement>

  /** `get_global_uid_ext` */
  function GlobalUid(path: seq<string>, id: string): string {
    TreeId.Encode(path + [id], ".")
  }

  function Find(entries: seq<Entry>, key: string): Option<Node> {
    if entries == [] then None
    else if entries[0].key == key then Some(entries[0].node)
    else Find(entries[1..], key)
  }

  // ---------------------------------------------------------------- positions

  /** The node at the end of a path of dictionary keys. */
  function NodeAt(entries: seq<Entry>, ids: seq<string>): Option<Node>
    decreases |ids|
  {
    if ids == [] then None
    else match Find(entries, ids[0])
      case None => None
      case Some(n) =>
        if |ids| == 1 then Some(n)
        else if n.Plain? then None
        else NodeAt(n.nodes, ids[1..])
  }

  /** The names of the nodes above a position. */
  function NamesAbove(entries: seq<Entry>, ids: seq<string>): seq<string>
    requires NodeAt(entries, ids).Some?
    decreases |ids|
  {
    var n := Find(entries, ids[0]).value;
    if |ids| == 1 then [] else [n.name] + NamesAbove(n.nodes, ids[1..])
  }

  /** What the global id of a position encodes. */
  function Label(entries: seq<Entry>, ids: seq<string>): seq<string>
    requires NodeAt(entries, ids).Some?
  {
    NamesAbove(entries, ids) + [NodeAt(entries, ids).value.id]
  }

  /** The frontend path of a position below `prefix`. */
  function FrontendPath(prefix: seq<string>, ids: seq<string>): seq<string>
    requires ids != []
    decreases |ids|
  {
    if |ids| == 1 then prefix + ["nodes", ids[0]]
    else FrontendPath(prefix + ["nodes", ids[0], "flow"], ids[1..])
  }

  // ---------------------------------------------------------------- well-formed flows

  /** Keys are distinct, a node's id is its key, and siblings that own a flow have distinct names. */
  predicate WellFormed(entries: seq<Entry>) {
    entries == [] || (
      && Find(entries[1..], entries[0].key).None?
      && entries[0].node.id == entries[0].key
      && (entries[0].node.Owner? ==>
        !OwnedName(entries[1..], entries[0].node.name) && WellFormed(entries[0].node.nodes))
      && WellFormed(entries[1..]))
  }

  /** Some sibling with this name owns a flow. */
  predicate OwnedName(entries: seq<Entry>, name: string) {
    entries != [] && ((entries[0].node.Owner? && entries[0].node.name == name) || OwnedName(entries[1..], name))
  }

  lemma {:induction false} FoundIsWellFormed(entries: seq<Entry>, key: string)
    requires WellFormed(entries) && Find(entries, key).Some?
    ensures var n := Find(entries, key).value;
      && n.id == key
      && (n.Owner? ==> WellFormed(n.nodes) && OwnedName(entries, n.name))
  {
    if entries[0].key != key { FoundIsWellFormed(entries[1..], key); }
  }

  lemma {:induction false} OwnersHaveDistinctNames(entries: seq<Entry>, k1: string, k2: string)
    requires WellFormed(entries) && Find(entries, k1).Some? && Find(entries, k2).Some?
    requires Find(entries, k1).value.Owner? && Find(entries, k2).value.Owner?
    requires Find(entries, k1).value.name == Find(entries, k2).value.name
    ensures k1 == k2
  {
    if entries[0].key == k1 && k1 != k2 {
      FoundIsWellFormed(entries[1..], k2);
    } else if entries[0].key == k2 && k1 != k2 {
      FoundIsWellFormed(entries[1..], k1);
    } else if k1 != k2 {
      OwnersHaveDistinctNames(entries[1..], k1, k2);
    }
  }

  lemma {:induction false} LabelShape(entries: seq<Entry>, ids: seq<string>)
    requires WellFormed(entries) && NodeAt(entries, ids).Some?
    ensures |Label(entries, ids)| == |ids|
    ensures |ids| == 1 ==> Label(entries, ids) == ids
    ensures |ids| > 1 ==>
      var n := Find(entries, ids[0]).value;
      WellFormed(n.nodes) && Label(entries, ids) == [n.name] + Label(n.nodes, ids[1..])
    decreases |ids|
  {
    FoundIsWellFormed(entries, ids[0]);
    if |ids| > 1 { LabelShape(Find(entries, ids[0]).value.nodes, ids[1..]); }
  }

  /** Two positions with the same label are the same position. */
  lemma {:induction false} LabelsAreInjective(entries: seq<Entry>, a: seq<string>, b: seq<string>)
    requires WellFormed(entries) && NodeAt(entries, a).Some? && NodeAt(entries, b).Some?
    requires Label(entries, a) == Label(entries, b)
    ensures a == b
    decreases |a|
  {
    LabelShape(entries, a);
    LabelShape(entries, b);
    if |a| > 1 {
      var m, n := Find(entries, a[0]).value, Find(entries, b[0]).value;
      assert Label(entries, a)[0] == m.name && Label(entries, b)[0] == n.name;
      assert Label(entries, a)[1..] == Label(m.nodes, a[1..]);
      assert Label(entries, b)[1..] == Label(n.nodes, b[1..]);
      OwnersHaveDistinctNames(entries, a[0], b[0]);
      LabelsAreInjective(m.nodes, a[1..], b[1..]);
      assert a == [a[0]] + a[1..] && b == [b[0]] + b[1..];
    }
  }

  /** Global ids are injective over the whole tree. */
  lemma GlobalUidsAreInjective(entries: seq<Entry>, a: seq<string>, b: seq<string>)
    requires WellFormed(entries) && NodeAt(entries, a).Some? && NodeAt(entries, b).Some?
    requires GlobalUid(NamesAbove(entries, a), NodeAt(entries, a).value.id)
          == GlobalUid(NamesAbove(entries, b), NodeAt(entries, b).value.id)
    ensures a == b
  {
    TreeId.EncodeInjective(Label(entries, a), Label(entries, b), ".");
    LabelsAreInjective(entries, a, b);
  }

  // ---------------------------------------------------------------- assigning paths

  /** The dictionary after a node and everything below it has been placed. */
  function AssignNode(n: Node, frontendPath: seq<string>, path: seq<string>, m: Places): Places
    decreases n, 1
  {
    var m' := m[GlobalUid(path, n.id) := Placement(path, frontendPath)];
    if n.Plain? then m' else AssignEntries(n.nodes, frontendPath + ["flow"], path + [n.name], m')
  }

  function AssignEntries(entries: seq<Entry>, prefix: seq<string>, path: seq<string>, m: Places): Places
    decreases entries, 0
  {
    if entries == [] then m
    else AssignEntries(entries[1..], prefix, path,
      AssignNode(entries[0].node, prefix + ["nodes", entries[0].key], path, m))
  }

  /** `assign_path_to_all_node` with its two dictionaries, which always have the same keys, as one. */
  class PathAssigner {
    var places: Places

    constructor ()
      ensures places == map[]
    {
      places := map[];
    }

    method Assign(n: Node, frontendPath: seq<string>, path: seq<string>)
      modifies this
      ensures places == AssignNode(n, frontendPath, path, old(places))
      decreases n, 1
    {
      places := places[GlobalUid(path, n.id) := Placement(path, frontendPath)];
      if n.Owner? { AssignAll(n.nodes, frontendPath + ["flow"], path + [n.name]); }
    }

    method AssignAll(entries: seq<Entry>, prefix: seq<string>, path: seq<string>)
      modifies this
      ensures places == AssignEntries(entries, prefix, path, old(places))
      decreases entries, 0
    {
      for i := 0 to |entries|
        invariant AssignEntries(entries[i..], prefix, path, places) == AssignEntries(entries, prefix, path, old(places))
      {
        assert entries[i..][0] == entries[i] && entries[i..][1..] == entries[i + 1..];
        Assign(entries[i].node, prefix + ["nodes", entries[i].key], path);
      }
      assert entries[|entries|..] == [];
    }
  }

  /** No position below `path` has this label. */
  ghost predicate NotALabel(entries: seq<Entry>, path: seq<string>, x: seq<string>) {
    forall ids :: NodeAt(entries, ids).Some? ==> path + Label(entries, ids) != x
  }

  /** Keys of the tail are not the head's, so positions of the tail are positions of the whole. */
  lemma TailPosition(entries: seq<Entry>, ids: seq<string>)
    requires entries != [] && WellFormed(entries) && NodeAt(entries[1..], ids).Some?
    ensures ids[0] != entries[0].key
    ensures NodeAt(entries, ids) == NodeAt(entries[1..], ids)
    ensures NamesAbove(entries, ids) == NamesAbove(entries[1..], ids)
  {
  }

  lemma HeadPosition(entries: seq<Entry>, ids: seq<string>)
    requires entries != [] && WellFormed(entries) && entries[0].node.Owner?
    requires NodeAt(entries[0].node.nodes, ids).Some?
    ensures var whole, n := [entries[0].key] + ids, entries[0].node;
      NodeAt(entries, whole).Some? && Label(entries, whole) == [n.name] + Label(n.nodes, ids)
  {
    var whole := [entries[0].key] + ids;
    assert whole[1..] == ids;
    LabelShape(entries, whole);
  }

  /** Placing a flow leaves every other entry of the dictionary alone. */
  lemma {:induction false} OthersUntouched(entries: seq<Entry>, prefix: seq<string>, path: seq<string>, m: Places,
      x: seq<string>)
    requires WellFormed(entries) && NotALabel(entries, path, x) && x != []
    ensures var g, m' := TreeId.Encode(x, "."), AssignEntries(entries, prefix, path, m);
      (g in m' <==> g in m) && (g in m ==> m'[g] == m[g])
    decreases entries
  {
    if entries != [] {
      var n := entries[0].node;
      var frontendPath := prefix + ["nodes", entries[0].key];
      HeadUntouched(entries, prefix, path, m, x);
      forall ids | NodeAt(entries[1..], ids).Some? ensures path + Label(entries[1..], ids) != x {
        TailPosition(entries, ids);
      }
      OthersUntouched(entries[1..], prefix, path, AssignNode(n, frontendPath, path, m), x);
    }
  }

  lemma {:induction false} HeadUntouched(entries: seq<Entry>, prefix: seq<string>, path: seq<string>, m: Places,
      x: seq<string>)
    requires entries != [] && WellFormed(entries) && NotALabel(entries, path, x) && x != []
    ensures var g, m' := TreeId.Encode(x, "."),
        AssignNode(entries[0].node, prefix + ["nodes", entries[0].key], path, m);
      (g in m' <==> g in m) && (g in m ==> m'[g] == m[g])
    decreases entries, 0
  {
    var n, frontendPath := entries[0].node, prefix + ["nodes", entries[0].key];
    LabelShape(entries, [n.id]);
    assert path + Label(entries, [n.id]) != x;
    TreeId.EncodeInjective(path + [n.id], x, ".");
    if n.Owner? {
      forall ids | NodeAt(n.nodes, ids).Some? ensures path + [n.name] + Label(n.nodes, ids) != x {
        HeadPosition(entries, ids);
        Assoc(path, [n.name], Label(n.nodes, ids));
        assert path + Label(entries, [n.id] + ids) != x;
      }
      OthersUntouched(n.nodes, frontendPath + ["flow"], path + [n.name],
        m[GlobalUid(path, n.id) := Placement(path, frontendPath)], x);
    }
  }

  /** Every position is stored under its global id, with its own paths. */
  lemma {:induction false} EveryPositionIsStored(entries: seq<Entry>, prefix: seq<string>, path: seq<string>,
      m: Places, ids: seq<string>)
    requires WellFormed(entries) && NodeAt(entries, ids).Some?
    ensures var g, m' := TreeId.Encode(path + Label(entries, ids), "."), AssignEntries(entries, prefix, path, m);
      g in m' && m'[g] == Placement(path + NamesAbove(entries, ids), FrontendPath(prefix, ids))
    decreases entries
  {
    var n, frontendPath := entries[0].node, prefix + ["nodes", entries[0].key];
    var m1 := AssignNode(n, frontendPath, path, m);
    if ids[0] != entries[0].key {
      assert NodeAt(entries[1..], ids) == NodeAt(entries, ids);
      TailPosition(entries, ids);
      EveryPositionIsStored(entries[1..], prefix, path, m1, ids);
    } else {
      HeadIsStored(entries, prefix, path, m, ids);
      forall other | NodeAt(entries[1..], other).Some?
        ensures path + Label(entries[1..], other) != path + Label(entries, ids)
      {
        TailPosition(entries, other);
        if path + Label(entries, other) == path + Label(entries, ids) {
          assert (path + Label(entries, other))[|path|..] == Label(entries, other);
          assert (path + Label(entries, ids))[|path|..] == Label(entries, ids);
          LabelsAreInjective(entries, other, ids);
        }
      }
      OthersUntouched(entries[1..], prefix, path, m1, path + Label(entries, ids));
    }
  }

  lemma {:induction false} HeadIsStored(entries: seq<Entry>, prefix: seq<string>, path: seq<string>, m: Places,
      ids: seq<string>)
    requires WellFormed(entries) && NodeAt(entries, ids).Some? && ids[0] == entries[0].key
    ensures var g := TreeId.Encode(path + Label(entries, ids), ".");
      var m' := AssignNode(entries[0].node, prefix + ["nodes", entries[0].key], path, m);
      g in m' && m'[g] == Placement(path + NamesAbove(entries, ids), FrontendPath(prefix, ids))
    decreases entries, 0
  {
    var n, frontendPath := entries[0].node, prefix + ["nodes", entries[0].key];
    var m0 := m[GlobalUid(path, n.id) := Placement(path, frontendPath)];
    LabelShape(entries, ids);
    if |ids| == 1 {
      EmptySuffix(path);
      assert ids == [n.id];
      if n.Owner? {
        forall sub | NodeAt(n.nodes, sub).Some? ensures path + [n.name] + Label(n.nodes, sub) != path + [n.id] {
          LabelShape(n.nodes, sub);
          assert |path + [n.name] + Label(n.nodes, sub)| > |path + [n.id]|;
        }
        OthersUntouched(n.nodes, frontendPath + ["flow"], path + [n.name], m0, path + [n.id]);
      }
    } else {
      EveryPositionIsStored(n.nodes, frontendPath + ["flow"], path + [n.name], m0, ids[1..]);
      Assoc(path, [n.name], Label(n.nodes, ids[1..]));
      Assoc(path, [n.name], NamesAbove(n.nodes, ids[1..]));
      assert frontendPath + ["flow"] == prefix + ["nodes", ids[0], "flow"];
    }
  }

  // ---------------------------------------------------------------- finding nodes again

  /** `fe_path[1::3]` */
  function IdPath(fePath: seq<string>): seq<string> {
    if |fePath| < 2 then [] else [fePath[1]] + IdPath(fePath[Min(3, |fePath|)..])
  }

  lemma {:induction false} IdPathOfFrontendPath(ids: seq<string>)
    requires ids != []
    ensures IdPath(FrontendPath([], ids)) == ids
    decreases |ids|
  {
    if |ids| == 1 {
      assert FrontendPath([], ids) == ["nodes", ids[0]];
      assert IdPath([]) == [];
    } else {
      PrefixMovesOut(["nodes", ids[0], "flow"], ids[1..]);
      EmptyPrefix(["nodes", ids[0], "flow"]);
      var head, rest := ["nodes", ids[0], "flow"], FrontendPath([], ids[1..]);
      assert (head + rest)[3..] == rest;
      IdPathOfFrontendPath(ids[1..]);
      assert [ids[0]] + ids[1..] == ids;
    }
  }

  lemma {:induction false} PrefixMovesOut(prefix: seq<string>, ids: seq<string>)
    requires ids != []
    ensures FrontendPath(prefix, ids) == prefix + FrontendPath([], ids)
    decreases |ids|
  {
    if |ids| == 1 {
      EmptyPrefix(["nodes", ids[0]]);
    } else {
      var step := ["nodes", ids[0], "flow"];
      PrefixMovesOut(prefix + step, ids[1..]);
      PrefixMovesOut([] + step, ids[1..]);
      EmptyPrefix(step);
      Assoc(prefix, step, FrontendPath([], ids[1..]));
    }
  }

  /** What looking a path up gives: the node with its parent, None, or a KeyError. */
  datatype LookupResult = Found(parent: Option<Node>, node: Node) | Nothing | KeyError

  function LookupFrom(entries: seq<Entry>, parent: Option<Node>, ids: seq<string>): LookupResult
    decreases |ids|
  {
    if ids == [] then Nothing
    else match Find(entries, ids[0])
      case None => KeyError
      case Some(n) =>
        if |ids| == 1 then Found(parent, n)
        else if n.Plain? then Nothing
        else LookupFrom(n.nodes, Some(n), ids[1..])
  }

  /** `get_flow_node_by_fe_path` */
  method GetFlowNodeByFePath(root: seq<Entry>, fePath: seq<string>) returns (r: LookupResult)
    ensures r == LookupFrom(root, None, IdPath(fePath))
  {
    var idPath := IdPath(fePath);
    var flow, parent := root, None;
    r := Nothing;
    for i := 0 to |idPath|
      invariant idPath == [] ==> r == Nothing
      invariant i < |idPath| ==> LookupFrom(flow, parent, idPath[i..]) == LookupFrom(root, None, idPath)
      invariant i == |idPath| > 0 ==> r == LookupFrom(root, None, idPath)
    {
      assert idPath[i..][0] == idPath[i] && idPath[i..][1..] == idPath[i + 1..];
      var node := Find(flow, idPath[i]);
      if node.None? { return KeyError; }
      if i != |idPath| - 1 {
        if node.value.Plain? { return Nothing; }
        flow, parent := node.value.nodes, Some(node.value);
      } else {
        r := Found(parent, node.value);
      }
    }
  }

  /** Looking up finds the node of the position, and the node of the position above it. */
  lemma {:induction false} LookupFindsPosition(entries: seq<Entry>, parent: Option<Node>, ids: seq<string>)
    requires NodeAt(entries, ids).Some?
    ensures LookupFrom(entries, parent, ids) ==
      Found(if |ids| == 1 then parent else NodeAt(entries, ids[..|ids| - 1]), NodeAt(entries, ids).value)
    decreases |ids|
  {
    if |ids| > 1 {
      var n := Find(entries, ids[0]).value;
      LookupFindsPosition(n.nodes, Some(n), ids[1..]);
      var above := ids[..|ids| - 1];
      assert above[0] == ids[0] && above[1..] == ids[1..][..|ids| - 2];
    }
  }

  /** A node that owns no flow is in the way. */
  ghost predicate ThroughPlain(entries: seq<Entry>, ids: seq<string>) {
    exists k :: 1 <= k < |ids| && EndsAtPlain(entries, ids[..k])
  }

  predicate EndsAtPlain(entries: seq<Entry>, ids: seq<string>) {
    NodeAt(entries, ids).Some? && NodeAt(entries, ids).value.Plain?
  }

  lemma StepInto(entries: seq<Entry>, ids: seq<string>, k: nat)
    requires 2 <= k <= |ids| && Find(entries, ids[0]).Some? && Find(entries, ids[0]).value.Owner?
    ensures NodeAt(entries, ids[..k]) == NodeAt(Find(entries, ids[0]).value.nodes, ids[1..][..k - 1])
  {
    assert ids[..k][0] == ids[0] && ids[..k][1..] == ids[1..][..k - 1];
  }

  /** What looking up gives for any path: None for the empty path and behind a node without a flow, the
      node where there is one, a KeyError otherwise. */
  lemma {:induction false} LookupOutcome(entries: seq<Entry>, parent: Option<Node>, ids: seq<string>)
    ensures LookupFrom(entries, parent, ids).Nothing? <==> ids == [] || ThroughPlain(entries, ids)
    ensures LookupFrom(entries, parent, ids).Found? <==> NodeAt(entries, ids).Some?
    decreases |ids|
  {
    if |ids| > 1 && Find(entries, ids[0]).Some? {
      var n := Find(entries, ids[0]).value;
      assert NodeAt(entries, ids[..1]) == Some(n);
      if n.Plain? {
        assert EndsAtPlain(entries, ids[..1]);
      } else {
        LookupOutcome(n.nodes, Some(n), ids[1..]);
        if ThroughPlain(entries, ids) {
          var k :| 1 <= k < |ids| && EndsAtPlain(entries, ids[..k]);
          StepInto(entries, ids, k);
          assert EndsAtPlain(n.nodes, ids[1..][..k - 1]);
        }
        if ThroughPlain(n.nodes, ids[1..]) {
          var k :| 1 <= k < |ids[1..]| && EndsAtPlain(n.nodes, ids[1..][..k]);
          StepInto(entries, ids, k + 1);
          assert EndsAtPlain(entries, ids[..k + 1]);
        }
      }
    } else {
      assert forall k :: 1 <= k < |ids| ==> ids[..k][0] == ids[0];
    }
  }

  /** Addressing: from the global id of any node, through the dictionary and the frontend path, back to
      that node and its true parent. */
  lemma GlobalUidLeadsBack(entries: seq<Entry>, ids: seq<string>)
    requires WellFormed(entries) && NodeAt(entries, ids).Some?
    ensures var places, gid := AssignEntries(entries, [], [], map[]),
        GlobalUid(NamesAbove(entries, ids), NodeAt(entries, ids).value.id);
      && gid in places
      && places[gid].importPath == NamesAbove(entries, ids)
      && LookupFrom(entries, None, IdPath(places[gid].frontendPath))
         == Found(if |ids| == 1 then None else NodeAt(entries, ids[..|ids| - 1]), NodeAt(entries, ids).value)
  {
    EveryPositionIsStored(entries, [], [], map[], ids);
    EmptyPrefix(Label(entries, ids));
    EmptyPrefix(NamesAbove(entries, ids));
    IdPathOfFrontendPath(ids);
    LookupFindsPosition(entries, None, ids);
  }

  // ---------------------------------------------------------------- references

  ghost predicate IsUidBelow(entries: seq<Entry>, path: seq<string>, g: string, ids: seq<string>) {
    NodeAt(entries, ids).Some? && g == TreeId.Encode(path + Label(entries, ids), ".")
  }

  /** The dictionary holds nothing but global ids of positions. */
  lemma {:induction false} OnlyUidsAreStored(entries: seq<Entry>, prefix: seq<string>, path: seq<string>, m: Places,
      g: string)
    returns (ids: seq<string>)
    requires WellFormed(entries) && g in AssignEntries(entries, prefix, path, m) && g !in m
    ensures IsUidBelow(entries, path, g, ids)
    decreases entries
  {
    var n, frontendPath := entries[0].node, prefix + ["nodes", entries[0].key];
    var m0 := m[GlobalUid(path, n.id) := Placement(path, frontendPath)];
    var m1 := AssignNode(n, frontendPath, path, m);
    if g == GlobalUid(path, n.id) {
      ids := [n.id];
      LabelShape(entries, ids);
    } else if g in m1 {
      var sub := OnlyUidsAreStored(n.nodes, frontendPath + ["flow"], path + [n.name], m0, g);
      ids := [n.id] + sub;
      HeadPosition(entries, sub);
      Assoc(path, [n.name], Label(n.nodes, sub));
    } else {
      ids := OnlyUidsAreStored(entries[1..], prefix, path, m1, g);
      TailPosition(entries, ids);
    }
  }

  /** The dictionary knows exactly the global ids of the nodes. */
  lemma StoredIff(entries: seq<Entry>, g: string)
    requires WellFormed(entries)
    ensures g in AssignEntries(entries, [], [], map[]) <==> exists ids :: IsUidBelow(entries, [], g, ids)
  {
    if g in AssignEntries(entries, [], [], map[]) {
      var ids := OnlyUidsAreStored(entries, [], [], map[], g);
    }
    if exists ids :: IsUidBelow(entries, [], g, ids) {
      var ids :| IsUidBelow(entries, [], g, ids);
      EveryPositionIsStored(entries, [], [], map[], ids);
    }
  }

  /** `update_ref_path` on one reference; None is one of its two AssertionErrors. */
  function UpdateRef(ref: Ref, places: Places): Option<Ref> {
    if ref.NoRef? then Some(ref)
    else if ref.importPath.None? then None
    else
      var g := GlobalUid(ref.importPath.value, ref.nodeId);
      if g !in places then None
      else Some(Ref(ref.nodeId, Some(places[g].importPath), Some(places[g].frontendPath)))
  }

  /** `update_ref_path` on a node and everything below it. */
  function UpdateNode(n: Node, places: Places): Option<Node>
    decreases n, 1
  {
    match UpdateRef(n.ref, places)
    case None => None
    case Some(ref) =>
      if n.Plain? then Some(n.(ref := ref))
      else match UpdateEntries(n.nodes, places)
        case None => None
        case Some(nodes) => Some(n.(ref := ref, nodes := nodes))
  }

  function UpdateEntries(entries: seq<Entry>, places: Places): Option<seq<Entry>>
    decreases entries, 0
  {
    if entries == [] then Some([])
    else match UpdateNode(entries[0].node, places)
      case None => None
      case Some(n) =>
        match UpdateEntries(entries[1..], places)
        case None => None
        case Some(rest) => Some([Entry(entries[0].key, n)] + rest)
  }

  lemma {:induction false} UpdatedFind(entries: seq<Entry>, places: Places, key: string)
    requires UpdateEntries(entries, places).Some?
    ensures var updated := UpdateEntries(entries, places).value;
      && (Find(updated, key).None? <==> Find(entries, key).None?)
      && (Find(entries, key).Some? ==> Find(updated, key) == UpdateNode(Find(entries, key).value, places))
  {
    if entries != [] {
      var rest := UpdateEntries(entries[1..], places).value;
      assert UpdateEntries(entries, places).value[1..] == rest;
      UpdatedFind(entries[1..], places, key);
    }
  }

  /** The update keeps every position, with its node's id and name and the names above it. */
  lemma {:induction false} UpdatedPosition(entries: seq<Entry>, places: Places, ids: seq<string>)
    requires UpdateEntries(entries, places).Some?
    ensures var updated := UpdateEntries(entries, places).value;
      && (NodeAt(updated, ids).None? <==> NodeAt(entries, ids).None?)
      && (NodeAt(entries, ids).Some? ==>
        && NodeAt(updated, ids) == UpdateNode(NodeAt(entries, ids).value, places)
        && NamesAbove(updated, ids) == NamesAbove(entries, ids))
    decreases |ids|
  {
    if ids != [] {
      UpdatedFind(entries, places, ids[0]);
      if Find(entries, ids[0]).Some? && |ids| > 1 {
        var n := Find(entries, ids[0]).value;
        if n.Owner? { UpdatedPosition(n.nodes, places, ids[1..]); }
      }
    }
  }

  /** Every reference in the flow can be updated. */
  ghost predicate RefsKnown(entries: seq<Entry>, places: Places) {
    forall ids :: NodeAt(entries, ids).Some? ==> UpdateRef(NodeAt(entries, ids).value.ref, places).Some?
  }

  lemma {:induction false} UpdateNeedsKnownRefs(entries: seq<Entry>, places: Places)
    requires WellFormed(entries)
    ensures UpdateEntries(entries, places).Some? <==> RefsKnown(entries, places)
    decreases entries
  {
    if UpdateEntries(entries, places).Some? {
      forall ids | NodeAt(entries, ids).Some? ensures UpdateRef(NodeAt(entries, ids).value.ref, places).Some? {
        UpdatedPosition(entries, places, ids);
      }
    }
    if RefsKnown(entries, places) && entries != [] {
      RefsKnownParts(entries, places);
      var n := entries[0].node;
      if n.Owner? { UpdateNeedsKnownRefs(n.nodes, places); }
      assert UpdateNode(n, places).Some?;
      UpdateNeedsKnownRefs(entries[1..], places);
    }
  }

  lemma RefsKnownParts(entries: seq<Entry>, places: Places)
    requires entries != [] && WellFormed(entries) && RefsKnown(entries, places)
    ensures UpdateRef(entries[0].node.ref, places).Some?
    ensures entries[0].node.Owner? ==> RefsKnown(entries[0].node.nodes, places)
    ensures RefsKnown(entries[1..], places)
  {
    var n := entries[0].node;
    assert NodeAt(entries, [entries[0].key]) == Some(n);
    if n.Owner? {
      forall ids | NodeAt(n.nodes, ids).Some? ensures UpdateRef(NodeAt(n.nodes, ids).value.ref, places).Some? {
        var whole := [entries[0].key] + ids;
        assert whole[1..] == ids;
        assert NodeAt(entries, whole) == NodeAt(n.nodes, ids);
      }
    }
    forall ids | NodeAt(entries[1..], ids).Some? ensures UpdateRef(NodeAt(entries[1..], ids).value.ref, places).Some? {
      TailPosition(entries, ids);
    }
  }

  /** A node of the flow has the id and the names above it that the reference was made with. */
  ghost predicate HasTarget(entries: seq<Entry>, ref: Ref) {
    ref.NoRef? || (ref.importPath.Some? && exists target :: IsTarget(entries, ref, target))
  }

  ghost predicate IsTarget(entries: seq<Entry>, ref: Ref, target: seq<string>)
    requires ref.Ref? && ref.importPath.Some?
  {
    NodeAt(entries, target).Some? && Label(entries, target) == ref.importPath.value + [ref.nodeId]
  }

  /** What one reference needs of the flow's own dictionaries. */
  lemma RefKnownIff(entries: seq<Entry>, ref: Ref)
    requires WellFormed(entries)
    ensures UpdateRef(ref, AssignEntries(entries, [], [], map[])).Some? <==> HasTarget(entries, ref)
  {
    if ref.Ref? && ref.importPath.Some? {
      var places, wanted := AssignEntries(entries, [], [], map[]), ref.importPath.value + [ref.nodeId];
      if UpdateRef(ref, places).Some? {
        var target := OnlyUidsAreStored(entries, [], [], map[], GlobalUid(ref.importPath.value, ref.nodeId));
        EmptyPrefix(Label(entries, target));
        TreeId.EncodeInjective(wanted, Label(entries, target), ".");
        assert IsTarget(entries, ref, target);
      }
      if HasTarget(entries, ref) {
        var target :| IsTarget(entries, ref, target);
        EmptyPrefix(Label(entries, target));
        EveryPositionIsStored(entries, [], [], map[], target);
      }
    }
  }

  ghost predicate AllHaveTargets(entries: seq<Entry>) {
    forall ids :: NodeAt(entries, ids).Some? ==> HasTarget(entries, NodeAt(entries, ids).value.ref)
  }

  /** With the flow's own dictionaries the update succeeds exactly when every reference in the flow has an
      import path, and a node of the flow with that path and the id of the reference. */
  lemma UpdateSucceedsIff(entries: seq<Entry>)
    requires WellFormed(entries)
    ensures UpdateEntries(entries, AssignEntries(entries, [], [], map[])).Some? <==> AllHaveTargets(entries)
  {
    var places := AssignEntries(entries, [], [], map[]);
    UpdateNeedsKnownRefs(entries, places);
    forall ids | NodeAt(entries, ids).Some?
      ensures var ref := NodeAt(entries, ids).value.ref; UpdateRef(ref, places).Some? <==> HasTarget(entries, ref)
    {
      RefKnownIff(entries, NodeAt(entries, ids).value.ref);
    }
  }

  /** The update changes nothing but where references lead. */
  lemma UpdateKeepsTheRest(entries: seq<Entry>, places: Places, ids: seq<string>)
    requires UpdateEntries(entries, places).Some? && NodeAt(entries, ids).Some?
    ensures var updated, n := UpdateEntries(entries, places).value, NodeAt(entries, ids).value;
      && NodeAt(updated, ids).Some?
      && var n' := NodeAt(updated, ids).value;
      && n'.id == n.id && n'.name == n.name && (n'.Owner? <==> n.Owner?)
      && (n'.ref.NoRef? <==> n.ref.NoRef?) && (n.ref.Ref? ==> n'.ref.nodeId == n.ref.nodeId)
  {
    UpdatedPosition(entries, places, ids);
  }

  /** After the update every reference leads to its node: the stored frontend path is looked up in the
      updated flow and gives the node at the one position whose id and names above it are those the
      reference was made with; the stored import path is the one it had. */
  lemma ReferenceLeadsToItsNode(entries: seq<Entry>, ids: seq<string>) returns (target: seq<string>)
    requires WellFormed(entries) && NodeAt(entries, ids).Some? && NodeAt(entries, ids).value.ref.Ref?
    requires AllHaveTargets(entries)
    ensures UpdateEntries(entries, AssignEntries(entries, [], [], map[])).Some?
    ensures var updated := UpdateEntries(entries, AssignEntries(entries, [], [], map[])).value;
      && NodeAt(updated, ids).Some? && NodeAt(updated, target).Some?
      && var was, ref := NodeAt(entries, ids).value.ref, NodeAt(updated, ids).value.ref;
      && ref.Ref? && ref.fePath.Some? && was.importPath.Some?
      && ref.nodeId == was.nodeId == NodeAt(updated, target).value.id
      && ref.importPath == was.importPath == Some(NamesAbove(updated, target))
      && LookupFrom(updated, None, IdPath(ref.fePath.value))
         == Found(if |target| == 1 then None else NodeAt(updated, target[..|target| - 1]),
             NodeAt(updated, target).value)
  {
    var places := AssignEntries(entries, [], [], map[]);
    UpdateSucceedsIff(entries);
    var updated, was := UpdateEntries(entries, places).value, NodeAt(entries, ids).value.ref;
    UpdatedPosition(entries, places, ids);
    var path := was.importPath.value;
    var g := GlobalUid(path, was.nodeId);
    target := OnlyUidsAreStored(entries, [], [], map[], g);
    EmptyPrefix(Label(entries, target));
    EmptyPrefix(NamesAbove(entries, target));
    TreeId.EncodeInjective(path + [was.nodeId], Label(entries, target), ".");
    SameLast(path, was.nodeId, NamesAbove(entries, target), NodeAt(entries, target).value.id);
    EveryPositionIsStored(entries, [], [], map[], target);
    IdPathOfFrontendPath(target);
    UpdatedPosition(entries, places, target);
    LookupFindsPosition(updated, None, target);
  }

  lemma SameLast<T>(a: seq<T>, x: T, b: seq<T>, y: T)
    requires a + [x] == b + [y]
    ensures a == b && x == y
  {
    assert (a + [x])[..|a|] == a && (b + [y])[..|b|] == b;
    assert (a + [x])[|a|] == x && (b + [y])[|b|] == y;
  }
}
