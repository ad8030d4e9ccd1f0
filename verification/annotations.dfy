/**
  What `makePkgMap` computes for every package, stated over values: the
  `incoming` count, the `popular` (strict majority) flag, the `depOfMulti`
  taint as a least fixed point over the dependency edges, and `depVersions`.
  Packages are indices 0..n-1; `es[i]` is the resolved dependency list of
  package i; `vers`, `pop`, `s` hold one attribute per package.
 */
module Annotations {
  import opened Packages

  /** Number of entries of `ds` resolving to package `j`. */
  function Occurrences(ds: seq<Dep>, j: nat): (c: nat)
    ensures c <= |ds|
  {
    if ds == [] then 0
    else Occurrences(ds[..|ds| - 1], j) + (if ds[|ds| - 1].pkg == j then 1 else 0)
  }

  /** The positions of `ds` whose entry resolves to package `j`. */
  ghost function EntriesTo(ds: seq<Dep>, j: nat): set<nat>
  {
    set k: nat | k < |ds| && ds[k].pkg == j
  }

  /** The count is the number of positions whose entry resolves to `j`, so an
      entry listed twice is counted twice. */
  lemma {:induction false} OccurrencesCountsEntries(ds: seq<Dep>, j: nat)
    ensures Occurrences(ds, j) == |EntriesTo(ds, j)|
  {
    if ds != [] {
      var front, last := ds[..|ds| - 1], |ds| - 1;
      OccurrencesCountsEntries(front, j);
      var here: set<nat> := if ds[last].pkg == j then {last} else {};
      assert EntriesTo(ds, j) == EntriesTo(front, j) + here;
      assert last !in EntriesTo(front, j);
    }
  }

  /** No entry of the list resolves to `j` exactly when the count is 0. */
  lemma {:induction false} OccurrencesZero(ds: seq<Dep>, j: nat)
    ensures Occurrences(ds, j) == 0 <==> forall k :: 0 <= k < |ds| ==> ds[k].pkg != j
  {
    if ds != [] {
      var front := ds[..|ds| - 1];
      OccurrencesZero(front, j);
      assert forall k :: 0 <= k < |front| ==> front[k] == ds[k];
    }
  }

  /** `incoming`: the number of entries, over all dependency lists, that resolve
      to package `j`; an entry listed twice is counted twice. */
  function InDegree(es: seq<seq<Dep>>, j: nat): (d: nat)
  {
    if es == [] then 0
    else InDegree(es[..|es| - 1], j) + Occurrences(es[|es| - 1], j)
  }

  /** A package has no incoming count exactly when no entry of any list
      resolves to it. */
  lemma {:induction false} InDegreeZero(es: seq<seq<Dep>>, j: nat)
    ensures InDegree(es, j) == 0 <==> forall i, k :: 0 <= i < |es| && 0 <= k < |es[i]| ==> es[i][k].pkg != j
  {
    if es != [] {
      var front := es[..|es| - 1];
      InDegreeZero(front, j);
      OccurrencesZero(es[|es| - 1], j);
      assert forall i :: 0 <= i < |front| ==> front[i] == es[i];
    }
  }

  /** Counting one more list adds its occurrences: `incoming` after the lists
      0..i of the graph. */
  lemma InDegreeStep(es: seq<seq<Dep>>, i: nat, j: nat)
    requires i < |es|
    ensures InDegree(es[..i + 1], j) == InDegree(es[..i], j) + Occurrences(es[i], j)
  {
    assert es[..i + 1][..i] == es[..i];
  }

  /** Every package's count is at least the number of entries of any single list
      that resolve to it. */
  lemma {:induction false} InDegreeCountsEachList(es: seq<seq<Dep>>, i: nat, j: nat)
    requires i < |es|
    ensures InDegree(es, j) >= Occurrences(es[i], j)
  {
    var front := es[..|es| - 1];
    if i < |es| - 1 {
      assert front[i] == es[i];
      InDegreeCountsEachList(front, i, j);
    }
  }

  /** `popular`: a package with `versions` versions, among the packages stored
      under its name (`siblings`), is depended on by strictly more packages than
      every other sibling, and by at least one. */
  ghost predicate Majority(versions: int, siblings: set<nat>, inc: seq<int>, i: nat)
  {
    versions > 1 && i < |inc| && inc[i] > 0 &&
    forall s :: s in siblings && s != i ==> s < |inc| && inc[s] < inc[i]
  }

  /** Two siblings never both hold the majority, and a sibling that another one
      matches or beats does not hold it: a tie at the top leaves the name without
      a majority version. */
  lemma MajorityIsStrict(versions: int, siblings: set<nat>, inc: seq<int>, i: nat, j: nat)
    requires i < |inc| && j < |inc| && forall s :: s in siblings ==> s < |inc|
    requires i in siblings && j in siblings && i != j
    ensures !(Majority(versions, siblings, inc, i) && Majority(versions, siblings, inc, j))
    ensures inc[j] >= inc[i] ==> !Majority(versions, siblings, inc, i)
  {
  }

  /** Every entry of every list resolves to one of the `n` packages. */
  ghost predicate Shaped(es: seq<seq<Dep>>, n: nat)
  {
    |es| == n && forall i, k :: 0 <= i < n && 0 <= k < |es[i]| ==> es[i][k].pkg < n
  }

  /** The resolved edges of a list point inside the list. */
  lemma EdgesShaped(ps: seq<Package>)
    requires AllResolve(ps)
    ensures Shaped(Edges(ps), |ps|)
  {
    var es: seq<seq<Dep>> := Edges(ps);
    forall i, k | 0 <= i < |ps| && 0 <= k < |es[i]| ensures es[i][k].pkg < |ps| {
      assert es[i][k] == ResolveIn(ps, ps[i].deps[k]);
    }
  }

  /** The taint rule of an edge from an untainted package `p` to `d`: `p` has
      several versions, and either `d` has several versions too or `p` is not the
      popular version of its name. */
  predicate Spreads(vers: seq<int>, pop: seq<bool>, p: nat, d: nat)
    requires p < |vers| && p < |pop| && d < |vers|
  {
    vers[p] > 1 && (vers[d] > 1 || !pop[p])
  }

  /** Attribute sequences fit a graph of `n` packages. */
  ghost predicate Fits(es: seq<seq<Dep>>, vers: seq<int>, pop: seq<bool>, n: nat)
  {
    Shaped(es, n) && |vers| == n && |pop| == n
  }

  /** The edge `i -> es[i][k]` respects the taint flags `s`: if the source is
      tainted, or the rule fires on the edge, the target is tainted. */
  ghost predicate EdgeClosed(es: seq<seq<Dep>>, vers: seq<int>, pop: seq<bool>, s: seq<bool>, i: nat, k: nat)
    requires Fits(es, vers, pop, |s|) && i < |es| && k < |es[i]|
  {
    var d := es[i][k].pkg;
    (s[i] || Spreads(vers, pop, i, d)) ==> s[d]
  }

  /** No edge can add taint: a fixed point of the propagation loop. */
  ghost predicate TaintClosed(es: seq<seq<Dep>>, vers: seq<int>, pop: seq<bool>, s: seq<bool>)
  {
    Fits(es, vers, pop, |s|) &&
    forall i, k :: 0 <= i < |es| && 0 <= k < |es[i]| ==> EdgeClosed(es, vers, pop, s, i, k)
  }

  /** Pointwise: every flag set in `a` is set in `b`. */
  ghost predicate Le(a: seq<bool>, b: seq<bool>)
  {
    |a| == |b| && forall j :: 0 <= j < |a| && a[j] ==> b[j]
  }

  /** `s` is the least fixed point above the starting flags `s0`: it is closed,
      it keeps every starting flag, and it lies below every other such set. */
  ghost predicate LeastTaint(es: seq<seq<Dep>>, vers: seq<int>, pop: seq<bool>, s0: seq<bool>, s: seq<bool>)
  {
    TaintClosed(es, vers, pop, s) && Le(s0, s) &&
    forall t :: |t| == |s| && TaintClosed(es, vers, pop, t) && Le(s0, t) ==> Le(s, t)
  }

  /** The flags of `n` packages none of which is tainted. */
  function Untainted(n: nat): (s: seq<bool>)
    ensures |s| == n && forall j :: 0 <= j < n ==> !s[j]
  {
    seq(n, _ => false)
  }

  /** The packages not tainted yet: the measure that the propagation loop
      shrinks on every pass that reports a change. */
  ghost function UntaintedSet(s: seq<bool>): set<nat>
  {
    set j | 0 <= j < |s| && !s[j]
  }

  /** A pass that never resets a flag and sets at least one strictly shrinks the
      set of untainted packages. */
  lemma UntaintedShrinks(a: seq<bool>, b: seq<bool>, j: nat)
    requires Le(a, b) && j < |a| && !a[j] && b[j]
    ensures UntaintedSet(b) < UntaintedSet(a)
  {
    assert j in UntaintedSet(a) && j !in UntaintedSet(b);
  }

  /** `a -> b` is an edge of the graph. */
  ghost predicate HasEdge(es: seq<seq<Dep>>, a: nat, b: nat)
    requires a < |es|
  {
    exists k :: 0 <= k < |es[a]| && es[a][k].pkg == b
  }

  /** `path` is a walk along dependency edges. */
  ghost predicate IsPath(es: seq<seq<Dep>>, path: seq<nat>)
  {
    (forall m :: 0 <= m < |path| ==> path[m] < |es|) &&
    forall m :: 0 <= m < |path| - 1 ==> HasEdge(es, path[m], path[m + 1])
  }

  /** Taint is total beneath a tainted package: in a closed set, every package on
      a walk starting from a tainted package is tainted. */
  lemma {:induction false} TaintFollowsPaths(es: seq<seq<Dep>>, vers: seq<int>, pop: seq<bool>, s: seq<bool>, path: seq<nat>)
    requires TaintClosed(es, vers, pop, s) && IsPath(es, path)
    requires |path| > 0 && s[path[0]]
    ensures forall m :: 0 <= m < |path| ==> s[path[m]]
  {
    if |path| > 1 {
      assert HasEdge(es, path[0], path[1]);
      var k :| 0 <= k < |es[path[0]]| && es[path[0]][k].pkg == path[1];
      assert EdgeClosed(es, vers, pop, s, path[0], k);
      var rest := path[1..];
      assert IsPath(es, rest) by {
        forall m | 0 <= m < |rest| - 1 ensures HasEdge(es, rest[m], rest[m + 1]) {
          assert rest[m] == path[m + 1] && rest[m + 1] == path[m + 2];
        }
      }
      TaintFollowsPaths(es, vers, pop, s, rest);
      forall m | 1 <= m < |path| ensures s[path[m]] {
        assert path[m] == rest[m - 1];
      }
    }
  }

  /** A minority version of a multi-version name taints everything beneath it:
      in a closed set, every package after the first on a walk from such a
      package is tainted, whether or not the first is. */
  lemma MinorityTaintsBeneath(es: seq<seq<Dep>>, vers: seq<int>, pop: seq<bool>, s: seq<bool>, path: seq<nat>)
    requires TaintClosed(es, vers, pop, s) && IsPath(es, path)
    requires |path| > 1 && vers[path[0]] > 1 && !pop[path[0]]
    ensures forall m :: 1 <= m < |path| ==> s[path[m]]
  {
    assert HasEdge(es, path[0], path[1]);
    var k :| 0 <= k < |es[path[0]]| && es[path[0]][k].pkg == path[1];
    assert EdgeClosed(es, vers, pop, s, path[0], k);
    var rest := path[1..];
    assert IsPath(es, rest) by {
      forall m | 0 <= m < |rest| - 1 ensures HasEdge(es, rest[m], rest[m + 1]) {
        assert rest[m] == path[m + 1] && rest[m + 1] == path[m + 2];
      }
    }
    TaintFollowsPaths(es, vers, pop, s, rest);
    forall m | 1 <= m < |path| ensures s[path[m]] {
      assert path[m] == rest[m - 1];
    }
  }

  /** The result of propagation does not depend on the order in which edges are
      visited: there is only one least fixed point above given starting flags. */
  lemma LeastTaintUnique(es: seq<seq<Dep>>, vers: seq<int>, pop: seq<bool>, s0: seq<bool>, s: seq<bool>, s': seq<bool>)
    requires LeastTaint(es, vers, pop, s0, s) && LeastTaint(es, vers, pop, s0, s')
    ensures s == s'
  {
    assert Le(s, s') && Le(s', s);
    assert |s| == |s'|;
    forall j | 0 <= j < |s| ensures s[j] == s'[j] {
      if s[j] { assert s'[j]; }
      if s'[j] { assert s[j]; }
    }
  }

  /** Re-running the propagation on a fixed point changes nothing: starting flags
      that are already closed are their own least fixed point. */
  lemma ClosedStartIsFixed(es: seq<seq<Dep>>, vers: seq<int>, pop: seq<bool>, s0: seq<bool>, s: seq<bool>)
    requires LeastTaint(es, vers, pop, s0, s) && TaintClosed(es, vers, pop, s0)
    ensures s == s0
  {
    assert Le(s, s0);
    forall j | 0 <= j < |s| ensures s[j] == s0[j] {
      if s[j] { assert s0[j]; }
      if s0[j] { assert s[j]; }
    }
  }

  /** Every tainted package that was not tainted at the start has an incoming
      edge that taints it: from a tainted package, or one the rule fires on. */
  lemma TaintJustified(es: seq<seq<Dep>>, vers: seq<int>, pop: seq<bool>, s0: seq<bool>, s: seq<bool>, d: nat)
    requires LeastTaint(es, vers, pop, s0, s)
    requires d < |s| && s[d] && !s0[d]
    ensures exists i, k ::
      0 <= i < |es| && 0 <= k < |es[i]| && es[i][k].pkg == d && (s[i] || Spreads(vers, pop, i, d))
  {
    var t := s[d := false];
    assert Le(s0, t);
    assert !Le(s, t);
    assert !TaintClosed(es, vers, pop, t);
    var i: nat, k: nat :| i < |es| && k < |es[i]| && !EdgeClosed(es, vers, pop, t, i, k);
    assert EdgeClosed(es, vers, pop, s, i, k);
    assert es[i][k].pkg == d;
    assert s[i] || Spreads(vers, pop, i, d);
  }

  /** A graph where every name has a single version has no taint at all. */
  lemma SingleVersionsNoTaint(es: seq<seq<Dep>>, vers: seq<int>, pop: seq<bool>, s: seq<bool>)
    requires LeastTaint(es, vers, pop, Untainted(|s|), s)
    requires forall j :: 0 <= j < |vers| ==> vers[j] <= 1
    ensures s == Untainted(|s|)
  {
    var s0 := Untainted(|s|);
    assert TaintClosed(es, vers, pop, s0) by {
      forall i, k | 0 <= i < |es| && 0 <= k < |es[i]| ensures EdgeClosed(es, vers, pop, s0, i, k) {
      }
    }
    ClosedStartIsFixed(es, vers, pop, s0, s);
  }

  /** `depVersions`: the largest version count among the dependencies that are
      not the popular version of their name, or 0 when there is none. */
  function MaxDepVersions(ds: seq<Dep>, vers: seq<int>, pop: seq<bool>): (r: int)
    requires forall k :: 0 <= k < |ds| ==> ds[k].pkg < |vers| && ds[k].pkg < |pop|
    ensures r >= 0
    ensures forall k :: 0 <= k < |ds| && !pop[ds[k].pkg] ==> vers[ds[k].pkg] <= r
    ensures r == 0 || exists k :: 0 <= k < |ds| && !pop[ds[k].pkg] && vers[ds[k].pkg] == r
  {
    if ds == [] then 0
    else
      var m := MaxDepVersions(ds[..|ds| - 1], vers, pop);
      var d := ds[|ds| - 1].pkg;
      assert forall k :: 0 <= k < |ds| - 1 ==> ds[..|ds| - 1][k] == ds[k];
      if !pop[d] && vers[d] > m then vers[d] else m
  }

  /** `versions`: every package carries the number of versions of its name. */
  ghost predicate VersionsCounted(ps: seq<Package>, vers: seq<int>)
  {
    |vers| == |ps| && forall i :: 0 <= i < |ps| ==> vers[i] == |VersionsNamed(ps, ps[i].name)|
  }

  /** `incoming`: every package carries the number of entries resolving to it. */
  ghost predicate IncomingCounted(ps: seq<Package>, inc: seq<int>)
  {
    AllResolve(ps) && |inc| == |ps| && forall j :: 0 <= j < |ps| ==> inc[j] == InDegree(Edges(ps), j)
  }

  /** `popular`: set exactly on the strict majority version of each name. */
  ghost predicate PopularMarked(ps: seq<Package>, vers: seq<int>, inc: seq<int>, pop: seq<bool>)
  {
    |vers| == |ps| && |pop| == |ps| &&
    forall i :: 0 <= i < |ps| ==> pop[i] == Majority(vers[i], Siblings(ps, ps[i].name), inc, i)
  }

  /** `depOfMulti`: the least fixed point of the taint rule above no taint. */
  ghost predicate TaintMarked(ps: seq<Package>, vers: seq<int>, pop: seq<bool>, s: seq<bool>)
  {
    AllResolve(ps) && LeastTaint(Edges(ps), vers, pop, Untainted(|ps|), s)
  }

  /** `depVersions`: the largest version count among each package's non-popular
      dependencies. */
  ghost predicate DepVersionsMarked(ps: seq<Package>, vers: seq<int>, pop: seq<bool>, dv: seq<int>)
  {
    AllResolve(ps) && |vers| == |ps| && (EdgesShaped(ps); DepthsOf(Edges(ps), vers, pop, dv))
  }

  /** Over any entry lists `es`: each `dv[i]` is the largest version count among
      the non-popular targets of list i. */
  ghost predicate DepthsOf(es: seq<seq<Dep>>, vers: seq<int>, pop: seq<bool>, dv: seq<int>)
  {
    Shaped(es, |vers|) && |pop| == |vers| && |dv| == |vers| &&
    forall i :: 0 <= i < |vers| ==> dv[i] == MaxDepVersions(es[i], vers, pop)
  }

  /** Every private field as `makePkgMap` leaves it. */
  ghost predicate FullyAnnotated(ps: seq<Package>, vers: seq<int>, inc: seq<int>, pop: seq<bool>, s: seq<bool>, dv: seq<int>)
  {
    VersionsCounted(ps, vers) && IncomingCounted(ps, inc) && PopularMarked(ps, vers, inc, pop) &&
    TaintMarked(ps, vers, pop, s) && DepVersionsMarked(ps, vers, pop, dv)
  }

  /** Every package has at least one version (its own), and a popular package
      has siblings. */
  lemma VersionBounds(ps: seq<Package>, vers: seq<int>, inc: seq<int>, pop: seq<bool>)
    requires VersionsCounted(ps, vers) && PopularMarked(ps, vers, inc, pop)
    ensures forall i :: 0 <= i < |ps| ==> vers[i] >= 1 && (pop[i] ==> vers[i] > 1)
  {
    forall i | 0 <= i < |ps| ensures vers[i] >= 1 {
      assert ps[i].ver in VersionsNamed(ps, ps[i].name);
    }
  }

  /** A single-version dependency is never popular, and any non-popular
      dependency raises `depVersions` to at least its own version count, which
      is at least 1. */
  lemma DepVersionsFloor(ps: seq<Package>, vers: seq<int>, inc: seq<int>, pop: seq<bool>, es: seq<seq<Dep>>,
                         dv: seq<int>, p: nat, k: nat)
    requires VersionsCounted(ps, vers) && PopularMarked(ps, vers, inc, pop) && DepthsOf(es, vers, pop, dv)
    requires p < |ps| && k < |es[p]|
    ensures vers[es[p][k].pkg] <= 1 ==> !pop[es[p][k].pkg]
    ensures !pop[es[p][k].pkg] ==> 1 <= vers[es[p][k].pkg] <= dv[p]
  {
    VersionBounds(ps, vers, inc, pop);
  }
}
