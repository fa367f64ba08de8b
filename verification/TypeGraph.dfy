/**
 The generator of the dataclasses that a type leads to, over a type graph that may be cyclic.
 */
module TypeGraph {
  import opened Bytes

  /** A type: a dataclass, an annotated type (of which only the first argument is a type), or any
      other type with its arguments. */
  datatype Ty = DataClass(name: string) | Annotated(inner: Ty, metadata: seq<Ty>) | Other(args: seq<Ty>)

  /** The field types of every dataclass. */
  type Graph = map<string, seq<Ty>>

  function Fields(g: Graph, c: string): seq<Ty> {
    if c in g then g[c] else []
  }

  function SetOf(names: seq<string>): set<string> {
    set n | n in names
  }

  lemma SetOfAppend(a: seq<string>, b: seq<string>)
    ensures SetOf(a + b) == SetOf(a) + SetOf(b)
  {
  }

  // ---------------------------------------------------------------- the traversal

  /** What the generator yields, in order, when `visited` has been seen already. */
  function Walk(g: Graph, t: Ty, visited: set<string>): seq<string>
    decreases g.Keys - visited, t, 1
  {
    match t
    case DataClass(c) =>
      if c in visited then []
      else if c !in g then [c]
      else
        assert g.Keys - (visited + {c}) < g.Keys - visited by { assert c in g.Keys - visited; }
        [c] + WalkAll(g, g[c], visited + {c})
    case Annotated(inner, _) => Walk(g, inner, visited)
    case Other(args) => WalkAll(g, args, visited)
  }

  function WalkAll(g: Graph, ts: seq<Ty>, visited: set<string>): seq<string>
    decreases g.Keys - visited, ts, 0
  {
    if ts == [] then []
    else
      var first := Walk(g, ts[0], visited);
      assert g.Keys - (visited + SetOf(first)) <= g.Keys - visited;
      first + WalkAll(g, ts[1..], visited + SetOf(first))
  }

  /** The generator with the visited set that all its recursive calls share. */
  class Generator {
    const g: Graph
    var visited: set<string>

    constructor (g: Graph)
      ensures this.g == g && visited == {}
    {
      this.g := g;
      visited := {};
    }

    /** `_child_dataclass_type_generator_recursive` */
    method Generate(t: Ty) returns (out: seq<string>)
      modifies this
      ensures out == Walk(g, t, old(visited)) && visited == old(visited) + SetOf(out)
      decreases g.Keys - visited, t, 1
    {
      match t
      case DataClass(c) =>
        if c in visited { return []; }
        visited := visited + {c};
        out := [c];
        if c in g {
          assert c in g.Keys - old(visited);
          var rest := GenerateAll(g[c]);
          SetOfAppend(out, rest);
          out := out + rest;
        }
      case Annotated(inner, _) => out := Generate(inner);
      case Other(args) => out := GenerateAll(args);
    }

    /** The loop over fields or arguments. */
    method GenerateAll(ts: seq<Ty>) returns (out: seq<string>)
      modifies this
      ensures out == WalkAll(g, ts, old(visited)) && visited == old(visited) + SetOf(out)
      decreases g.Keys - visited, ts, 0
    {
      out := [];
      for i := 0 to |ts|
        invariant visited == old(visited) + SetOf(out)
        invariant out + WalkAll(g, ts[i..], visited) == WalkAll(g, ts, old(visited))
      {
        assert ts[i..][0] == ts[i] && ts[i..][1..] == ts[i + 1..];
        ghost var before := visited;
        var first := Generate(ts[i]);
        SetOfAppend(out, first);
        assert visited == before + SetOf(first);
        Assoc(out, first, WalkAll(g, ts[i + 1..], visited));
        out := out + first;
      }
      assert ts[|ts|..] == [];
      EmptySuffix(out);
    }
  }

  // ---------------------------------------------------------------- reachability

  /** The dataclasses a type mentions directly. */
  function Mentioned(t: Ty): set<string> {
    match t
    case DataClass(c) => {c}
    case Annotated(inner, _) => Mentioned(inner)
    case Other(args) => MentionedAll(args)
  }

  function MentionedAll(ts: seq<Ty>): set<string> {
    if ts == [] then {} else Mentioned(ts[0]) + MentionedAll(ts[1..])
  }

  /** A chain of dataclasses: the first one is in `start`, each next one is mentioned by a field. */
  predicate Chain(g: Graph, start: set<string>, path: seq<string>) {
    && path != [] && path[0] in start
    && forall i :: 0 <= i < |path| - 1 ==> path[i + 1] in MentionedAll(Fields(g, path[i]))
  }

  ghost predicate Reachable(g: Graph, start: set<string>, c: string) {
    exists path :: Chain(g, start, path) && path[|path| - 1] == c
  }

  lemma ReachOne(g: Graph, start: set<string>, c: string)
    requires c in start
    ensures Reachable(g, start, c)
  {
    assert Chain(g, start, [c]) && [c][|[c]| - 1] == c;
  }

  lemma ReachThrough(g: Graph, start: set<string>, c: string, d: string)
    requires c in start && Reachable(g, MentionedAll(Fields(g, c)), d)
    ensures Reachable(g, start, d)
  {
    var path :| Chain(g, MentionedAll(Fields(g, c)), path) && path[|path| - 1] == d;
    var longer := [c] + path;
    assert forall i :: 1 <= i < |longer| - 1 ==> longer[i] == path[i - 1] && longer[i + 1] == path[i];
    assert Chain(g, start, longer) && longer[|longer| - 1] == d;
  }

  lemma ReachMore(g: Graph, start: set<string>, more: set<string>, c: string)
    requires start <= more && Reachable(g, start, c)
    ensures Reachable(g, more, c)
  {
    var path :| Chain(g, start, path) && path[|path| - 1] == c;
    assert Chain(g, more, path);
  }

  // ---------------------------------------------------------------- soundness

  lemma {:induction false} WalkIsSound(g: Graph, t: Ty, visited: set<string>, d: string)
    requires d in Walk(g, t, visited)
    ensures Reachable(g, Mentioned(t), d)
    decreases g.Keys - visited, t, 1
  {
    match t
    case DataClass(c) =>
      if d == c {
        ReachOne(g, {c}, c);
      } else {
        assert c in g.Keys - visited;
        WalkAllIsSound(g, g[c], visited + {c}, d);
        ReachThrough(g, {c}, c, d);
      }
    case Annotated(inner, _) => WalkIsSound(g, inner, visited, d);
    case Other(args) => WalkAllIsSound(g, args, visited, d);
  }

  lemma {:induction false} WalkAllIsSound(g: Graph, ts: seq<Ty>, visited: set<string>, d: string)
    requires d in WalkAll(g, ts, visited)
    ensures Reachable(g, MentionedAll(ts), d)
    decreases g.Keys - visited, ts, 0
  {
    var first := Walk(g, ts[0], visited);
    if d in first {
      WalkIsSound(g, ts[0], visited, d);
      ReachMore(g, Mentioned(ts[0]), MentionedAll(ts), d);
    } else {
      WalkAllIsSound(g, ts[1..], visited + SetOf(first), d);
      ReachMore(g, MentionedAll(ts[1..]), MentionedAll(ts), d);
    }
  }

  // ---------------------------------------------------------------- each once

  predicate NoDuplicates(names: seq<string>) {
    forall i, j :: 0 <= i < j < |names| ==> names[i] != names[j]
  }

  /** New names only, each once. */
  predicate Fresh(names: seq<string>, visited: set<string>) {
    NoDuplicates(names) && SetOf(names) !! visited
  }

  lemma FreshAppend(a: seq<string>, b: seq<string>, visited: set<string>)
    requires Fresh(a, visited) && Fresh(b, visited + SetOf(a))
    ensures Fresh(a + b, visited)
  {
    SetOfAppend(a, b);
    forall i, j | 0 <= i < j < |a + b| ensures (a + b)[i] != (a + b)[j] {
      if i < |a| <= j {
        assert a[i] in SetOf(a) && b[j - |a|] in SetOf(b);
      }
    }
  }

  lemma {:induction false} WalkIsFresh(g: Graph, t: Ty, visited: set<string>)
    ensures Fresh(Walk(g, t, visited), visited)
    decreases g.Keys - visited, t, 1
  {
    match t
    case DataClass(c) =>
      if c !in visited && c in g {
        assert c in g.Keys - visited;
        WalkAllIsFresh(g, g[c], visited + {c});
        assert SetOf([c]) == {c};
        FreshAppend([c], WalkAll(g, g[c], visited + {c}), visited);
      }
    case Annotated(inner, _) => WalkIsFresh(g, inner, visited);
    case Other(args) => WalkAllIsFresh(g, args, visited);
  }

  lemma {:induction false} WalkAllIsFresh(g: Graph, ts: seq<Ty>, visited: set<string>)
    ensures Fresh(WalkAll(g, ts, visited), visited)
    decreases g.Keys - visited, ts, 0
  {
    if ts != [] {
      var first := Walk(g, ts[0], visited);
      WalkIsFresh(g, ts[0], visited);
      WalkAllIsFresh(g, ts[1..], visited + SetOf(first));
      FreshAppend(first, WalkAll(g, ts[1..], visited + SetOf(first)), visited);
    }
  }

  // ---------------------------------------------------------------- completeness

  /** Everything a class of `from` mentions is in `into`. */
  predicate ClosedIn(g: Graph, from: set<string>, into: set<string>) {
    forall c :: c in from ==> MentionedAll(Fields(g, c)) <= into
  }

  /** After the walk, the mentioned classes have been visited, and so has everything that the newly
      visited ones mention. The walk may rely on classes whose own visit is still under way. */
  lemma {:induction false} WalkCloses(g: Graph, t: Ty, visited: set<string>)
    ensures var out := SetOf(Walk(g, t, visited));
      Mentioned(t) <= visited + out && ClosedIn(g, out, visited + out)
    decreases g.Keys - visited, t, 1
  {
    match t
    case DataClass(c) =>
      if c !in visited && c in g {
        assert c in g.Keys - visited;
        var rest := WalkAll(g, g[c], visited + {c});
        WalkAllCloses(g, g[c], visited + {c});
        SetOfAppend([c], rest);
        assert SetOf([c]) == {c};
        assert visited + SetOf([c] + rest) == visited + {c} + SetOf(rest);
      }
    case Annotated(inner, _) => WalkCloses(g, inner, visited);
    case Other(args) => WalkAllCloses(g, args, visited);
  }

  lemma {:induction false} WalkAllCloses(g: Graph, ts: seq<Ty>, visited: set<string>)
    ensures var out := SetOf(WalkAll(g, ts, visited));
      MentionedAll(ts) <= visited + out && ClosedIn(g, out, visited + out)
    decreases g.Keys - visited, ts, 0
  {
    if ts != [] {
      var first := Walk(g, ts[0], visited);
      var rest := WalkAll(g, ts[1..], visited + SetOf(first));
      WalkCloses(g, ts[0], visited);
      WalkAllCloses(g, ts[1..], visited + SetOf(first));
      SetOfAppend(first, rest);
      assert visited + SetOf(first + rest) == visited + SetOf(first) + SetOf(rest);
    }
  }

  lemma {:induction false} ChainStaysInside(g: Graph, start: set<string>, path: seq<string>, into: set<string>, k: nat)
    requires Chain(g, start, path) && start <= into && ClosedIn(g, into, into) && k < |path|
    ensures path[k] in into
  {
    if k > 0 { ChainStaysInside(g, start, path, into, k - 1); }
  }

  /** `child_dataclass_type_generator` yields exactly the reachable dataclasses, each once, over any
      graph; that the definitions are accepted as terminating is part of the result. */
  lemma GeneratesExactlyTheReachable(g: Graph, t: Ty)
    ensures NoDuplicates(Walk(g, t, {}))
    ensures forall c :: c in Walk(g, t, {}) <==> Reachable(g, Mentioned(t), c)
  {
    var out := Walk(g, t, {});
    WalkIsFresh(g, t, {});
    WalkCloses(g, t, {});
    assert {} + SetOf(out) == SetOf(out);
    forall c ensures c in out <==> Reachable(g, Mentioned(t), c) {
      if c in out { WalkIsSound(g, t, {}, c); }
      if Reachable(g, Mentioned(t), c) {
        var path :| Chain(g, Mentioned(t), path) && path[|path| - 1] == c;
        ChainStaysInside(g, Mentioned(t), path, SetOf(out), |path| - 1);
      }
    }
  }

  /** `child_dataclass_type_generator` */
  method ChildDataclasses(g: Graph, t: Ty) returns (out: seq<string>)
    ensures NoDuplicates(out)
    ensures forall c :: c in out <==> Reachable(g, Mentioned(t), c)
  {
    var generator := new Generator(g);
    out := generator.Generate(t);
    GeneratesExactlyTheReachable(g, t);
  }
}
