/**
 Allocating names that are not in use.
 */
module UniqueNames {
  import opened Bytes
  import opened Decimal

  /** Where the last underscore is, or -1. */
  function LastUnderscore(name: string): (r: int)
    ensures r == -1 || (0 <= r < |name| && name[r] == '_')
  {
    if name == [] then -1
    else if name[|name| - 1] == '_' then |name| - 1
    else LastUnderscore(name[..|name| - 1])
  }

  /** The name without its number, and the number: everything in front of the last underscore, when
      what follows it is an integer and the name does not begin with an underscore. */
  function BaseAndTail(name: string, toInt: IntParser): (string, int) {
    var at := LastUnderscore(name);
    if at == -1 || name[0] == '_' || toInt(name[at + 1..]).None? then (name, 0)
    else (name[..at], toInt(name[at + 1..]).value)
  }

  /** The numbered candidates for a base name. */
  function Numbered(base: string): int -> string {
    (i: int) => base + "_" + PrintInt(i)
  }

  /** The first candidate from number `i` on, below `end`, that is not taken. */
  function FirstFree(pool: set<string>, candidate: int -> string, i: int, end: int): Option<string>
    decreases end - i
  {
    if i >= end then None
    else if candidate(i) !in pool then Some(candidate(i))
    else FirstFree(pool, candidate, i + 1, end)
  }

  /** The first free name behind `base` and `tail`. */
  function NumberedName(pool: set<string>, base: string, tail: int, maxCount: int): Option<string> {
    FirstFree(pool, Numbered(base), tail + 1, tail + maxCount)
  }

  /** What `_make_unique_name` returns; None is the ValueError. */
  function UniqueName(pool: set<string>, name: string, maxCount: int, toInt: IntParser): Option<string> {
    if name !in pool then Some(name)
    else NumberedName(pool, BaseAndTail(name, toInt).0, BaseAndTail(name, toInt).1, maxCount)
  }

  // ---------------------------------------------------------------- one allocation

  /** The candidates with the numbers from `i` on, below `end`. */
  function Candidates(candidate: int -> string, i: int, end: int): set<string>
    decreases end - i
  {
    if i >= end then {} else {candidate(i)} + Candidates(candidate, i + 1, end)
  }

  lemma {:induction false} FirstFreeIsFree(pool: set<string>, candidate: int -> string, i: int, end: int)
    ensures FirstFree(pool, candidate, i, end).Some? ==> FirstFree(pool, candidate, i, end).value !in pool
    ensures FirstFree(pool, candidate, i, end).None? <==> Candidates(candidate, i, end) <= pool
    decreases end - i
  {
    if i < end { FirstFreeIsFree(pool, candidate, i + 1, end); }
  }

  lemma NumberedNameIsFree(pool: set<string>, base: string, tail: int, maxCount: int)
    ensures var r := NumberedName(pool, base, tail, maxCount);
      && (r.Some? ==> r.value !in pool)
      && (r.None? <==> Candidates(Numbered(base), tail + 1, tail + maxCount) <= pool)
  {
    FirstFreeIsFree(pool, Numbered(base), tail + 1, tail + maxCount);
  }

  /** An allocated name is not in use, and is the wanted one whenever that is free. */
  lemma UniqueNameIsFree(pool: set<string>, name: string, maxCount: int, toInt: IntParser)
    ensures var r := UniqueName(pool, name, maxCount, toInt);
      && (r.Some? ==> r.value !in pool)
      && (name !in pool ==> r == Some(name))
  {
    NumberedNameIsFree(pool, BaseAndTail(name, toInt).0, BaseAndTail(name, toInt).1, maxCount);
  }

  /** `base`, an underscore and a number make up the name, which does not begin with an underscore. */
  predicate IsNumbered(name: string, base: string, tail: string) {
    name == base + "_" + tail && '_' !in tail && base != "" && base[0] != '_'
  }

  lemma {:induction false} LastUnderscoreIs(name: string, at: nat)
    requires at < |name| && name[at] == '_' && '_' !in name[at + 1..]
    ensures LastUnderscore(name) == at
    decreases |name|
  {
    if at < |name| - 1 {
      var front := name[..|name| - 1];
      assert name[at + 1..][|name| - 2 - at] == name[|name| - 1];
      assert front[at + 1..] == name[at + 1..][..|name| - 2 - at];
      LastUnderscoreIs(front, at);
    }
  }

  lemma {:induction false} NoneBehindLast(name: string)
    ensures LastUnderscore(name) != -1 ==> '_' !in name[LastUnderscore(name) + 1..]
    decreases |name|
  {
    if name != [] && name[|name| - 1] != '_' { NoneBehindLast(name[..|name| - 1]); }
  }

  /** How a name is taken apart: at its last underscore if a number follows it, otherwise not at all. */
  lemma BaseAndTailIff(name: string, toInt: IntParser, base: string, number: int)
    ensures BaseAndTail(name, toInt) == (base, number) <==>
      || (exists tail :: IsNumbered(name, base, tail) && toInt(tail) == Some(number))
      || (base == name && number == 0 && forall b, tail :: IsNumbered(name, b, tail) ==> toInt(tail).None?)
  {
    var at := LastUnderscore(name);
    NoneBehindLast(name);
    if at != -1 && name[0] != '_' {
      assert name == name[..at] + "_" + name[at + 1..];
      assert IsNumbered(name, name[..at], name[at + 1..]);
    }
    forall b, tail | IsNumbered(name, b, tail) ensures at == |b| && b == name[..at] && tail == name[at + 1..] {
      assert name[..|b|] == b && name[|b| + 1..] == tail;
      LastUnderscoreIs(name, |b|);
    }
  }

  lemma {:induction false} FirstFreeIs(pool: set<string>, candidate: int -> string, i: int, end: int, k: int)
    requires i <= k < end && candidate(k) !in pool && forall j :: i <= j < k ==> candidate(j) in pool
    ensures FirstFree(pool, candidate, i, end) == Some(candidate(k))
    decreases k - i
  {
    if i < k { FirstFreeIs(pool, candidate, i + 1, end, k); }
  }

  /** Number `k` is the least one above `tail` that is free. */
  ghost predicate LeastFree(pool: set<string>, base: string, tail: int, k: int) {
    && tail < k && base + "_" + PrintInt(k) !in pool
    && forall j :: tail < j < k ==> base + "_" + PrintInt(j) in pool
  }

  /** A name that is taken is given the least free number above its own, if that is in the range. */
  lemma TakenNameIsNumbered(pool: set<string>, name: string, maxCount: int, toInt: IntParser, k: int)
    requires name in pool
    requires LeastFree(pool, BaseAndTail(name, toInt).0, BaseAndTail(name, toInt).1, k)
    ensures var (base, tail) := BaseAndTail(name, toInt);
      UniqueName(pool, name, maxCount, toInt) == if k < tail + maxCount then Some(base + "_" + PrintInt(k)) else None
  {
    NumberedNameIs(pool, BaseAndTail(name, toInt).0, BaseAndTail(name, toInt).1, maxCount, k);
  }

  lemma NumberedNameIs(pool: set<string>, base: string, tail: int, maxCount: int, k: int)
    requires LeastFree(pool, base, tail, k)
    ensures NumberedName(pool, base, tail, maxCount) ==
      if k < tail + maxCount then Some(base + "_" + PrintInt(k)) else None
  {
    var candidate := Numbered(base);
    assert forall j :: candidate(j) == base + "_" + PrintInt(j);
    if k < tail + maxCount {
      FirstFreeIs(pool, candidate, tail + 1, tail + maxCount, k);
    } else {
      AllTaken(pool, candidate, tail + 1, tail + maxCount);
    }
  }

  lemma {:induction false} AllTaken(pool: set<string>, candidate: int -> string, i: int, end: int)
    requires forall j :: i <= j < end ==> candidate(j) in pool
    ensures FirstFree(pool, candidate, i, end) == None
    decreases end - i
  {
    if i < end { AllTaken(pool, candidate, i + 1, end); }
  }

  ghost predicate Injective(candidate: int -> string) {
    forall i, j :: candidate(i) == candidate(j) ==> i == j
  }

  lemma NumberedIsInjective(base: string)
    ensures Injective(Numbered(base))
  {
    forall i, j | Numbered(base)(i) == Numbered(base)(j) ensures i == j {
      assert Numbered(base)(i)[|base| + 1..] == PrintInt(i);
      assert Numbered(base)(j)[|base| + 1..] == PrintInt(j);
      PrintIntInjective(i, j);
    }
  }

  /** A candidate with a number below the range is not in it. */
  lemma {:induction false} LowerCandidateIsNotIn(candidate: int -> string, i: int, k: int, end: int)
    requires Injective(candidate) && i < k
    ensures candidate(i) !in Candidates(candidate, k, end)
    decreases end - k
  {
    if k < end { LowerCandidateIsNotIn(candidate, i, k + 1, end); }
  }

  /** Candidates with different numbers are different, so a range of them has as many as numbers. */
  lemma {:induction false} CountCandidates(candidate: int -> string, i: int, end: int)
    requires Injective(candidate) && i <= end
    ensures |Candidates(candidate, i, end)| == end - i
    decreases end - i
  {
    if i < end {
      CountCandidates(candidate, i + 1, end);
      LowerCandidateIsNotIn(candidate, i, i + 1, end);
    }
  }

  /** The name itself is not one of its candidates. */
  lemma NameIsNoCandidate(name: string, toInt: IntParser, base: string, tail: int, i: int)
    requires ReadsPrinted(toInt) && (base, tail) == BaseAndTail(name, toInt) && i > tail
    ensures Numbered(base)(i) != name
  {
    var at := LastUnderscore(name);
    if base != name {
      assert |base| == at;
      assert Numbered(base)(i)[at + 1..] == PrintInt(i);
      assert toInt(name[at + 1..]) == Some(tail);
    }
  }

  lemma {:induction false} NameIsNotAmong(name: string, candidate: int -> string, i: int, end: int)
    requires forall k :: i <= k < end ==> candidate(k) != name
    ensures name !in Candidates(candidate, i, end)
    decreases end - i
  {
    if i < end { NameIsNotAmong(name, candidate, i + 1, end); }
  }

  lemma {:induction false} SubsetIsNotLarger(a: set<string>, b: set<string>)
    requires a <= b
    ensures |a| <= |b|
  {
    if a != {} {
      var x :| x in a;
      SubsetIsNotLarger(a - {x}, b - {x});
    }
  }

  /** None of the candidates from number `from` on is the name. */
  ghost predicate Avoids(candidate: int -> string, name: string, from: int) {
    forall k :: from <= k ==> candidate(k) != name
  }

  /** Distinct candidates and one other name, all in the pool. */
  lemma PoolHoldsThem(pool: set<string>, name: string, candidate: int -> string, i: int, end: int)
    requires Injective(candidate) && i <= end && name in pool && Candidates(candidate, i, end) <= pool
    requires Avoids(candidate, name, i)
    ensures |pool| >= end - i + 1
  {
    var candidates := Candidates(candidate, i, end);
    NameIsNotAmong(name, candidate, i, end);
    CountCandidates(candidate, i, end);
    SubsetIsNotLarger(candidates + {name}, pool);
  }

  lemma CandidatesAreOthers(name: string, toInt: IntParser, base: string, tail: int)
    requires ReadsPrinted(toInt) && (base, tail) == BaseAndTail(name, toInt)
    ensures Avoids(Numbered(base), name, tail + 1)
  {
    forall k | tail + 1 <= k ensures Numbered(base)(k) != name { NameIsNoCandidate(name, toInt, base, tail, k); }
  }

  lemma CandidatesFillPool(pool: set<string>, name: string, base: string, tail: int, maxCount: int)
    requires name in pool && maxCount >= 1 && Avoids(Numbered(base), name, tail + 1)
    requires Candidates(Numbered(base), tail + 1, tail + maxCount) <= pool
    ensures |pool| >= maxCount
  {
    NumberedIsInjective(base);
    PoolHoldsThem(pool, name, Numbered(base), tail + 1, tail + maxCount);
  }

  lemma FullPool(pool: set<string>, name: string, toInt: IntParser, base: string, tail: int, maxCount: int)
    requires ReadsPrinted(toInt) && BaseAndTail(name, toInt) == (base, tail) && name in pool
    requires NumberedName(pool, base, tail, maxCount).None?
    ensures |pool| >= maxCount
  {
    NumberedNameIsFree(pool, base, tail, maxCount);
    CandidatesAreOthers(name, toInt, base, tail);
    if maxCount >= 1 { CandidatesFillPool(pool, name, base, tail, maxCount); }
  }

  /** Pigeonhole: allocation gives up only when the pool holds at least `maxCount` names. */
  lemma GivesUpOnlyWhenFull(pool: set<string>, name: string, maxCount: int, toInt: IntParser)
    requires ReadsPrinted(toInt) && UniqueName(pool, name, maxCount, toInt).None?
    ensures |pool| >= maxCount
  {
    FullPool(pool, name, toInt, BaseAndTail(name, toInt).0, BaseAndTail(name, toInt).1, maxCount);
  }

  // ---------------------------------------------------------------- the pool

  /** The search loop of `_make_unique_name`. */
  method SearchFree(pool: set<string>, candidate: int -> string, from: int, end: int) returns (r: Option<string>)
    ensures r == FirstFree(pool, candidate, from, end)
  {
    var i := from;
    while i < end
      invariant FirstFree(pool, candidate, i, end) == FirstFree(pool, candidate, from, end)
    {
      var newName := candidate(i);
      if newName !in pool { return Some(newName); }
      i := i + 1;
    }
    r := None;
  }

  class UniqueNamePool {
    const maxCount: int
    const toInt: IntParser
    var uniqueSet: set<string>

    constructor (maxCount: int, initSet: set<string>, toInt: IntParser)
      ensures uniqueSet == initSet && this.maxCount == maxCount && this.toInt == toInt
    {
      this.maxCount, this.toInt, uniqueSet := maxCount, toInt, initSet;
    }

    /** `__call__` and `_make_unique_name`. */
    method MakeUniqueName(name: string) returns (r: Option<string>)
      modifies this
      ensures r == UniqueName(old(uniqueSet), name, maxCount, toInt)
      ensures uniqueSet == if r.Some? then old(uniqueSet) + {r.value} else old(uniqueSet)
    {
      if name !in uniqueSet {
        uniqueSet := uniqueSet + {name};
        return Some(name);
      }
      var (base, tail) := BaseAndTail(name, toInt);
      r := SearchFree(uniqueSet, Numbered(base), tail + 1, tail + maxCount);
      if r.Some? { uniqueSet := uniqueSet + {r.value}; }
    }

    /** `pop`; false is the KeyError. */
    method Pop(key: string) returns (ok: bool)
      modifies this
      ensures ok <==> key in old(uniqueSet)
      ensures uniqueSet == old(uniqueSet) - {key}
    {
      ok := key in uniqueSet;
      uniqueSet := uniqueSet - {key};
    }

    method Clear()
      modifies this
      ensures uniqueSet == {}
    {
      uniqueSet := {};
    }
  }

  // ---------------------------------------------------------------- runs

  datatype Op = Make(name: string) | Remove(key: string) | ClearAll

  /** The pool after one operation, and the name it returned, if any. */
  function Apply(pool: set<string>, op: Op, maxCount: int, toInt: IntParser): (set<string>, Option<string>) {
    match op
    case Make(name) =>
      var r := UniqueName(pool, name, maxCount, toInt);
      (if r.Some? then pool + {r.value} else pool, r)
    case Remove(key) => (pool - {key}, None)
    case ClearAll => ({}, None)
  }

  /** The names returned by a run of operations. */
  function Results(pool: set<string>, ops: seq<Op>, maxCount: int, toInt: IntParser): (r: seq<Option<string>>)
    ensures |r| == |ops|
    decreases |ops|
  {
    if ops == [] then []
    else
      var (pool', r) := Apply(pool, ops[0], maxCount, toInt);
      [r] + Results(pool', ops[1..], maxCount, toInt)
  }

  predicate Frees(op: Op, name: string) {
    op == Remove(name) || op.ClearAll?
  }

  /** A name in the pool is not returned before it has been freed. */
  lemma {:induction false} LiveNameIsNotReturned(pool: set<string>, ops: seq<Op>, maxCount: int, toInt: IntParser,
      name: string, j: nat)
    requires name in pool && j < |ops| && Results(pool, ops, maxCount, toInt)[j] == Some(name)
    ensures exists k :: 0 <= k < j && Frees(ops[k], name)
    decreases |ops|
  {
    var (pool', r) := Apply(pool, ops[0], maxCount, toInt);
    if ops[0].Make? { UniqueNameIsFree(pool, ops[0].name, maxCount, toInt); }
    assert j > 0;
    if !Frees(ops[0], name) {
      LiveNameIsNotReturned(pool', ops[1..], maxCount, toInt, name, j - 1);
      var k :| 0 <= k < j - 1 && Frees(ops[1..][k], name);
      assert Frees(ops[k + 1], name);
    }
  }

  /** In every run of allocations and removals, a name that is returned twice was freed in between. */
  lemma {:induction false} NoNameIsReturnedTwice(pool: set<string>, ops: seq<Op>, maxCount: int, toInt: IntParser,
      i: nat, j: nat)
    requires i < j < |ops|
    requires var rs := Results(pool, ops, maxCount, toInt); rs[i].Some? && rs[i] == rs[j]
    ensures exists k :: i < k < j && Frees(ops[k], Results(pool, ops, maxCount, toInt)[i].value)
    decreases |ops|
  {
    var (pool', r) := Apply(pool, ops[0], maxCount, toInt);
    var later := Results(pool', ops[1..], maxCount, toInt);
    var name := Results(pool, ops, maxCount, toInt)[i].value;
    if i == 0 {
      LiveNameIsNotReturned(pool', ops[1..], maxCount, toInt, name, j - 1);
      var k :| 0 <= k < j - 1 && Frees(ops[1..][k], name);
      assert Frees(ops[k + 1], name);
    } else {
      NoNameIsReturnedTwice(pool', ops[1..], maxCount, toInt, i - 1, j - 1);
      var k :| i - 1 < k < j - 1 && Frees(ops[1..][k], later[i - 1].value);
      assert Frees(ops[k + 1], name);
    }
  }
}
