/**
  The analysis engine of checkdeps: the packages of a Cargo.lock with the
  private fields that `makePkgMap` fills in place and `trimPkgs` prunes.
  Package i of the list owns slot i of every per-package array.
 */
module CheckDeps {
  import opened Packages
  import opened Annotations
  import opened Trimming
  import opened Presentation

  class PkgGraph {
    /** The package list as loaded, in lockfile order. */
    const pkgs: seq<Package>
    const n: nat
    /** The lookup table name -> version -> package that `makePkgMap` returns
        and `trimPkgs` deletes names from. */
    var table: Table
    /** `Deps` of each package, with every entry resolved to its package. */
    const deps: array<seq<Dep>>
    /** The number of versions of the package's name. */
    const versions: array<int>
    /** The number of dependency entries resolving to the package. */
    const incoming: array<int>
    /** Strictly more entries resolve to this version than to any other. */
    const popular: array<bool>
    /** The package lies beneath a version conflict (`depOfMulti`). */
    const depOfMulti: array<bool>
    /** The largest version count among the non-popular direct dependencies. */
    const depVersions: array<int>

    /** One slot per package in every array, and distinct arrays. */
    ghost predicate Sized()
    {
      n == |pkgs| && deps.Length == n && versions.Length == n && incoming.Length == n &&
      popular.Length == n && depOfMulti.Length == n && depVersions.Length == n &&
      versions != incoming && versions != depVersions && incoming != depVersions &&
      popular != depOfMulti
    }

    /** Sized, and every resolved entry points at one of the packages. */
    ghost predicate Valid()
      reads deps
    {
      Sized() && Shaped(deps[..], n)
    }

    /** The private fields as the loader leaves them: zero values, and no entry
        resolved yet. */
    ghost predicate Unannotated()
      reads deps, versions, incoming, popular, depOfMulti, depVersions
    {
      Valid() &&
      forall i :: 0 <= i < n ==>
        deps[i] == [] && versions[i] == 0 && incoming[i] == 0 &&
        !popular[i] && !depOfMulti[i] && depVersions[i] == 0
    }

    /** The table and the resolved entries are those of the package list. */
    ghost predicate Built()
      reads this, deps
    {
      Valid() && AllResolve(pkgs) && table == TableOf(pkgs) && deps[..] == Edges(pkgs)
    }

    /** The attributes `makePkgMap` computes, each against the untrimmed graph. */
    ghost predicate Annotated()
      reads versions, incoming, popular, depOfMulti, depVersions
    {
      FullyAnnotated(pkgs, versions[..], incoming[..], popular[..], depOfMulti[..], depVersions[..])
    }

    /** The packages as handed over by the loader. */
    constructor (ps: seq<Package>)
      ensures pkgs == ps && table == map[] && Unannotated()
      ensures fresh(deps) && fresh(versions) && fresh(incoming) && fresh(popular)
      ensures fresh(depOfMulti) && fresh(depVersions)
    {
      pkgs := ps;
      n := |ps|;
      table := map[];
      deps := new seq<Dep>[|ps|](_ => []);
      versions := new int[|ps|](_ => 0);
      incoming := new int[|ps|](_ => 0);
      popular := new bool[|ps|](_ => false);
      depOfMulti := new bool[|ps|](_ => false);
      depVersions := new int[|ps|](_ => 0);
    }

    /** `makePkgMap`: builds the table and fills in every private field. */
    method MakePkgMap()
      requires Unannotated() && AllResolve(pkgs)
      modifies this`table, deps, versions, incoming, popular, depOfMulti, depVersions
      ensures Built() && Annotated()
    {
      BuildTable();
      TableAgrees(pkgs);
      Annotate();
    }

    /** The loops of `makePkgMap` after the table is built, in order. */
    method Annotate()
      requires Unannotated() && AllResolve(pkgs)
      requires LookupsAgree(pkgs, table) && CountsAgree(pkgs, table) && SiblingsAgree(pkgs, table)
      modifies deps, versions, incoming, popular, depOfMulti, depVersions
      ensures Valid() && deps[..] == Edges(pkgs) && Annotated()
    {
      ResolveAndCount();
      ghost var D, V, I := deps[..], versions[..], incoming[..];
      MarkPopular();
      ghost var P := popular[..];
      assert depOfMulti[..] == Untainted(n);
      PropagateTaint();
      ghost var S := depOfMulti[..];
      assert TaintMarked(pkgs, V, P, S);
      ComputeDepVersions();
      assert deps[..] == D && versions[..] == V && incoming[..] == I;
      assert popular[..] == P && depOfMulti[..] == S;
    }

    /** The first loop of `makePkgMap`: every package is stored under its name
        and version, a later package replacing an earlier one with the same key. */
    method BuildTable()
      requires Valid()
      modifies this`table
      ensures table == TableOf(pkgs)
    {
      table := map[];
      for i := 0 to n
        invariant table == TableOf(pkgs[..i])
      {
        assert pkgs[..i + 1][..i] == pkgs[..i];
        table := Insert(table, pkgs[i].name, pkgs[i].ver, i);
      }
      assert pkgs[..n] == pkgs;
    }

    /** The second loop: sets `versions`, resolves every dependency entry and
        counts it on the package it resolves to. */
    method ResolveAndCount()
      requires Sized() && AllResolve(pkgs) && LookupsAgree(pkgs, table) && CountsAgree(pkgs, table)
      requires forall j :: 0 <= j < n ==> incoming[j] == 0
      modifies deps, versions, incoming
      ensures Valid() && deps[..] == Edges(pkgs)
      ensures VersionsCounted(pkgs, versions[..]) && IncomingCounted(pkgs, incoming[..])
    {
      ghost var es: seq<seq<Dep>> := Edges(pkgs);
      EdgesShaped(pkgs);
      for i := 0 to n
        invariant forall j :: 0 <= j < i ==> deps[j] == es[j]
        invariant forall j :: 0 <= j < i ==> versions[j] == |VersionsNamed(pkgs, pkgs[j].name)|
        invariant forall j :: 0 <= j < n ==> incoming[j] == InDegree(es[..i], j)
      {
        ResolvePackage(i);
        forall j | 0 <= j < n {
          InDegreeStep(es, i, j);
        }
      }
      assert es[..n] == es;
      assert deps[..] == es;
    }

    /** One round of the second loop: the version count of package i, and its
        entries, each resolved through the table and counted once on its target. */
    method ResolvePackage(i: nat)
      requires Sized() && AllResolve(pkgs) && LookupsAgree(pkgs, table) && CountsAgree(pkgs, table) && i < n
      modifies deps, versions, incoming
      ensures forall j :: 0 <= j < n && j != i ==> versions[j] == old(versions[j]) && deps[j] == old(deps[j])
      ensures versions[i] == |VersionsNamed(pkgs, pkgs[i].name)| && deps[i] == Edges(pkgs)[i]
      ensures forall j :: 0 <= j < n ==> incoming[j] == old(incoming[j]) + Occurrences(Edges(pkgs)[i], j)
    {
      versions[i] := |table[pkgs[i].name]|;
      ghost var es: seq<Dep> := Edges(pkgs)[i];
      var resolved: seq<Dep> := [];
      for k := 0 to |pkgs[i].deps|
        modifies incoming
        invariant resolved == es[..k]
        invariant forall j :: 0 <= j < n ==> incoming[j] == old(incoming[j]) + Occurrences(resolved, j)
      {
        var dep := pkgs[i].deps[k];
        var p := table[dep.name][dep.ver];
        assert es[..k + 1] == resolved + [Dep(dep.name, dep.ver, p)];
        resolved := resolved + [Dep(dep.name, dep.ver, p)];
        assert resolved[..|resolved| - 1] == es[..k];
        incoming[p] := incoming[p] + 1;
      }
      assert es[..|es|] == es;
      deps[i] := resolved;
    }

    /** The third loop: a package with several versions is popular when more
        entries resolve to it than to any sibling under its name, and to it at
        least once; siblings are visited in an unspecified order. */
    method MarkPopular()
      requires Sized() && SiblingsAgree(pkgs, table) && VersionsCounted(pkgs, versions[..])
      requires forall i :: 0 <= i < n ==> !popular[i]
      modifies popular
      ensures PopularMarked(pkgs, versions[..], incoming[..], popular[..])
    {
      for i := 0 to n
        invariant forall j :: 0 <= j < i ==>
          popular[j] == Majority(versions[j], Siblings(pkgs, pkgs[j].name), incoming[..], j)
        invariant forall j :: i <= j < n ==> !popular[j]
      {
        var siblings := table[pkgs[i].name].Values;
        if versions[i] > 1 {
          var maxIncoming := MostIncomingOfOthers(siblings, incoming[..], i);
          MajorityAgainstMost(versions[i], siblings, incoming[..], i, maxIncoming);
          popular[i] := incoming[i] > maxIncoming;
        }
      }
    }

    /** The fourth loop: repeats taint passes until one changes nothing. The
        flags end as the least fixed point above the flags it started from. */
    method PropagateTaint()
      requires Valid()
      modifies depOfMulti
      ensures LeastTaint(deps[..], versions[..], popular[..], old(depOfMulti[..]), depOfMulti[..])
    {
      ghost var s0 := depOfMulti[..];
      var change := true;
      while change
        invariant Le(s0, depOfMulti[..])
        invariant forall t :: |t| == n && TaintClosed(deps[..], versions[..], popular[..], t) && Le(s0, t) ==>
          Le(depOfMulti[..], t)
        invariant !change ==> TaintClosed(deps[..], versions[..], popular[..], depOfMulti[..])
        decreases UntaintedSet(depOfMulti[..]), change
      {
        change := TaintPass();
      }
    }

    /** One pass of the taint loop over every edge, in list order, updating the
        flags in place. It never resets a flag, reports a change only when it set
        one, leaves the flags closed when it reports none, never goes beyond a
        closed set above its start, and changes nothing on a closed start. */
    method TaintPass() returns (change: bool)
      requires Valid()
      modifies depOfMulti
      ensures Le(old(depOfMulti[..]), depOfMulti[..])
      ensures change ==> UntaintedSet(depOfMulti[..]) < UntaintedSet(old(depOfMulti[..]))
      ensures !change ==>
        depOfMulti[..] == old(depOfMulti[..]) && TaintClosed(deps[..], versions[..], popular[..], depOfMulti[..])
      ensures old(TaintClosed(deps[..], versions[..], popular[..], depOfMulti[..])) ==> !change
      ensures forall t ::
        (|t| == n && TaintClosed(deps[..], versions[..], popular[..], t) && Le(old(depOfMulti[..]), t)) ==>
        Le(depOfMulti[..], t)
    {
      ghost var S := depOfMulti[..];
      ghost var E, V, P := deps[..], versions[..], popular[..];
      change := false;
      for i := 0 to n
        invariant Le(S, depOfMulti[..])
        invariant change ==> exists j :: 0 <= j < n && !S[j] && depOfMulti[j]
        invariant !change ==> depOfMulti[..] == S
        invariant !change ==> forall a, k :: 0 <= a < i && 0 <= k < |E[a]| ==> EdgeClosed(E, V, P, S, a, k)
        invariant TaintClosed(E, V, P, S) ==> !change
        invariant forall t :: |t| == n && TaintClosed(E, V, P, t) && Le(S, t) ==> Le(depOfMulti[..], t)
      {
        var ds := deps[i];
        for k := 0 to |ds|
          invariant Le(S, depOfMulti[..])
          invariant change ==> exists j :: 0 <= j < n && !S[j] && depOfMulti[j]
          invariant !change ==> depOfMulti[..] == S
          invariant !change ==> forall a, k' :: 0 <= a < n && 0 <= k' < |E[a]| && (a < i || (a == i && k' < k)) ==>
            EdgeClosed(E, V, P, S, a, k')
          invariant TaintClosed(E, V, P, S) ==> !change
          invariant forall t :: |t| == n && TaintClosed(E, V, P, t) && Le(S, t) ==> Le(depOfMulti[..], t)
        {
          var d := ds[k].pkg;
          if !depOfMulti[d] {
            if (versions[i] > 1 && (versions[d] > 1 || !popular[i])) || depOfMulti[i] {
              ghost var before := depOfMulti[..];
              depOfMulti[d] := true;
              change := true;
              forall t | |t| == n && TaintClosed(E, V, P, t) && Le(S, t) ensures Le(depOfMulti[..], t) {
                assert Le(before, t);
                assert EdgeClosed(E, V, P, t, i, k);
              }
            }
          }
        }
      }
      if change {
        ghost var j :| 0 <= j < n && !S[j] && depOfMulti[j];
        UntaintedShrinks(S, depOfMulti[..], j);
      }
    }

    /** The last loop: `versions` is set again (to the same value) and
        `depVersions` becomes the largest version count among the package's
        non-popular dependencies. */
    method ComputeDepVersions()
      requires Valid() && AllResolve(pkgs) && CountsAgree(pkgs, table) && deps[..] == Edges(pkgs)
      requires VersionsCounted(pkgs, versions[..])
      requires forall i :: 0 <= i < n ==> depVersions[i] == 0
      modifies versions, depVersions
      ensures versions[..] == old(versions[..])
      ensures DepVersionsMarked(pkgs, versions[..], popular[..], depVersions[..])
    {
      ghost var E, V, P := deps[..], versions[..], popular[..];
      for i := 0 to n
        invariant versions[..] == V
        invariant forall j :: 0 <= j < i ==> depVersions[j] == MaxDepVersions(E[j], V, P)
        invariant forall j :: i <= j < n ==> depVersions[j] == 0
      {
        versions[i] := |table[pkgs[i].name]|;
        assert versions[..] == V;
        assert E[i] == deps[i];
        var deepest := DeepestDep(deps[i], versions[..], popular[..]);
        depVersions[i] := deepest;
      }
    }

    /** The report loop of the command: for every listed package that is a
        leverage point, one line per entry whose package has several versions,
        in list and entry order. */
    method LeverageReport(order: seq<nat>) returns (lines: seq<string>)
      requires Valid() && forall o :: 0 <= o < |order| ==> order[o] < n
      ensures lines == Report(pkgs, deps[..], versions[..], depVersions[..], depOfMulti[..], order)
    {
      lines := [];
      for i := 0 to |order|
        invariant lines == Report(pkgs, deps[..], versions[..], depVersions[..], depOfMulti[..], order[..i])
      {
        assert order[..i + 1][..i] == order[..i];
        var p := order[i];
        if versions[p] == 1 && depVersions[p] > 1 && !depOfMulti[p] {
          var ds := deps[p];
          ghost var before := lines;
          for k := 0 to |ds|
            invariant lines == before + PackageLines(pkgs[p], ds[..k], versions[..])
          {
            assert ds[..k + 1][..k] == ds[..k];
            if versions[ds[k].pkg] > 1 {
              lines := lines + [ReportLine(pkgs[p], ds[k])];
            }
          }
          assert ds[..|ds|] == ds;
        }
      }
      assert order[..|order|] == order;
    }

    /** A package whose name is still in the table with fewer than two versions
        and which has no dependency entries left: `trimPkgs` deletes its name. */
    ghost predicate Deletable(i: nat)
      reads this, deps
      requires i < deps.Length && i < |pkgs|
    {
      pkgs[i].name in table && |table[pkgs[i].name]| < 2 && |deps[i]| == 0
    }

    /** What holds between passes of `trimPkgs`, against the entries `D0` and the
        table `T0` it started from: the table only lost names; each entry list is
        the start list filtered by an earlier table `ts[i]`; and each deleted name
        had a single version and a package of that name, `wit[name]`, has no
        entries; and the deleted names lie in every removal-closed set. */
    ghost predicate TrimInv(D0: seq<seq<Dep>>, T0: Table, ts: seq<Table>, wit: map<string, nat>)
      reads this, deps
    {
      Valid() && SubTable(table, T0) && Filtered(deps[..], D0, table, ts) && Witnessed(pkgs, deps[..], T0, table, wit) &&
      DeletedWithin(pkgs, D0, T0, table)
    }

    /** The inner filter of `trimPkgs`: the entries whose name still has
        versions in the table, in order. */
    method LiveEntries(ds: seq<Dep>) returns (r: seq<Dep>)
      ensures r == KeepLive(ds, table)
    {
      r := [];
      for k := 0 to |ds|
        invariant r == KeepLive(ds[..k], table)
      {
        assert ds[..k + 1][..k] == ds[..k];
        var dv := if ds[k].name in table then table[ds[k].name] else map[];
        if |dv| > 0 {
          r := r + [ds[k]];
        }
      }
      assert ds[..|ds|] == ds;
    }

    /** `trimPkgs`: repeats passes that drop entries to deleted names and delete
        single-version names whose packages have no entries, until a pass
        deletes nothing; then returns the positions of the packages whose key is
        still in the table, in order, or the whole list when nothing was deleted. */
    method TrimPkgs() returns (kept: seq<nat>)
      requires Valid() && AllResolve(pkgs) && KeysPresent(pkgs, table) && deps[..] == Edges(pkgs)
      modifies this`table, deps
      ensures Valid() && Trimmed(pkgs, old(deps[..]), old(table), deps[..], table)
      ensures kept == Survivors(pkgs, table)
      ensures table == old(table) ==> kept == Positions(n)
      ensures old(Annotated()) ==> Annotated()
    {
      forall i | 0 <= i < n ensures KeepLive(deps[i], table) == deps[i] {
        EdgesLiveInTable(pkgs, table, i);
      }
      var anyChange := TrimToFixedPoint();
      if anyChange {
        kept := SurvivingPositions();
      } else {
        SurvivorsOfFullTable(pkgs, table, n);
        kept := Positions(n);
      }
    }

    /** The closing loop of `trimPkgs`: the positions of the packages whose key
        is still in the table, in order. */
    method SurvivingPositions() returns (kept: seq<nat>)
      requires n == |pkgs|
      ensures kept == Survivors(pkgs, table)
    {
      kept := [];
      for i := 0 to n
        invariant kept == SurvivorsUpTo(pkgs, table, i)
      {
        if pkgs[i].name in table && pkgs[i].ver in table[pkgs[i].name] {
          kept := kept + [i];
        }
      }
    }

    /** The passes of `trimPkgs`, repeated until one deletes nothing; reports
        whether any pass deleted a name. */
    method TrimToFixedPoint() returns (anyChange: bool)
      requires Valid() && forall i :: 0 <= i < n ==> KeepLive(deps[i], table) == deps[i]
      modifies this`table, deps
      ensures Valid() && Trimmed(pkgs, old(deps[..]), old(table), deps[..], table)
      ensures anyChange <==> table != old(table)
    {
      ghost var D0, T0 := deps[..], table;
      ghost var ts: seq<Table> := seq(n, _ => T0);
      ghost var wit: map<string, nat> := map[];
      anyChange := false;
      var change := true;
      while change
        invariant TrimInv(D0, T0, ts, wit)
        invariant !anyChange ==> table == T0
        invariant anyChange ==> table.Keys < T0.Keys
        invariant !change ==> forall i :: 0 <= i < n ==> ts[i] == table && !Deletable(i)
        decreases table.Keys, change
      {
        change, ts, wit := TrimPass(D0, T0, ts, wit);
        anyChange := anyChange || change;
      }
      TrimSettled(pkgs, deps[..], D0, T0, table, ts, wit);
      forall i | 0 <= i < n ensures !(pkgs[i].name in table && |table[pkgs[i].name]| < 2 && deps[..][i] == []) {
        assert !Deletable(i);
      }
      SettledLeast(pkgs, deps[..], D0, T0, table);
      assert Trimmed(pkgs, D0, T0, deps[..], table);
    }

    /** One pass of the `trimPkgs` loop over the packages in order: filter the
        package's entries by the current table, then delete its name if it is
        deletable. Reports a change exactly when it deleted a name; a pass that
        reports none leaves every list filtered by the final table and no
        package deletable. */
    method TrimPass(ghost D0: seq<seq<Dep>>, ghost T0: Table, ghost ts: seq<Table>, ghost wit: map<string, nat>)
      returns (change: bool, ghost ts': seq<Table>, ghost wit': map<string, nat>)
      requires TrimInv(D0, T0, ts, wit)
      modifies this`table, deps
      ensures TrimInv(D0, T0, ts', wit')
      ensures SubTable(table, old(table))
      ensures change ==> table.Keys < old(table).Keys
      ensures !change ==> table == old(table) && forall i :: 0 <= i < n ==> ts'[i] == table && !Deletable(i)
    {
      change := false;
      ts', wit' := ts, wit;
      for i := 0 to n
        invariant TrimInv(D0, T0, ts', wit')
        invariant SubTable(table, old(table))
        invariant change ==> table.Keys < old(table).Keys
        invariant !change ==> table == old(table) && forall j :: 0 <= j < i ==> ts'[j] == table && !Deletable(j)
      {
        var deleted;
        deleted, ts', wit' := TrimPackage(i, D0, T0, ts', wit');
        change := change || deleted;
      }
    }

    /** One step of a `trimPkgs` pass: package i's entries are filtered by the
        current table (replaced only when some entry went), then its name is
        deleted if the package is deletable. */
    method TrimPackage(i: nat, ghost D0: seq<seq<Dep>>, ghost T0: Table, ghost ts: seq<Table>, ghost wit: map<string, nat>)
      returns (deleted: bool, ghost ts': seq<Table>, ghost wit': map<string, nat>)
      requires TrimInv(D0, T0, ts, wit) && i < n
      modifies this`table, deps
      ensures TrimInv(D0, T0, ts', wit')
      ensures ts' == ts[i := old(table)]
      ensures deps[i] == KeepLive(old(deps[i]), old(table))
      ensures forall j :: 0 <= j < n && j != i ==> deps[j] == old(deps[j])
      ensures deleted ==> pkgs[i].name in old(table) && table == old(table) - {pkgs[i].name}
      ensures deleted ==> |old(table)[pkgs[i].name]| < 2 && deps[i] == []
      ensures !deleted ==> table == old(table) && !Deletable(i)
    {
      ghost var ds, t := deps[..], table;
      var newDeps := LiveEntries(deps[i]);
      KeepLiveSameLength(deps[i], table);
      if |newDeps| != |deps[i]| {
        deps[i] := newDeps;
      }
      assert deps[..] == ds[i := KeepLive(ds[i], t)];
      FilterStep(ds, D0, t, ts, i);
      FilterKeeps(pkgs, ds, T0, t, wit, i);
      ts' := ts[i := table];
      wit' := wit;
      var name := pkgs[i].name;
      deleted := false;
      if name in table && |table[name]| < 2 && |deps[i]| == 0 {
        DeleteStep(pkgs, deps[..], D0, T0, table, ts', wit, i);
        DeleteWithin(pkgs, D0, T0, table, i);
        table := table - {name};
        deleted := true;
        wit' := wit[name := i];
      }
    }
  }

  /** The inner loop of the popularity pass: the largest incoming count among
      the siblings other than `i`, or 0 when there is none; siblings are visited
      in an unspecified order. */
  method MostIncomingOfOthers(siblings: set<nat>, inc: seq<int>, i: nat) returns (m: int)
    requires forall s :: s in siblings ==> s < |inc|
    ensures m >= 0
    ensures forall s :: s in siblings && s != i ==> inc[s] <= m
    ensures m == 0 || exists s :: s in siblings && s != i && inc[s] == m
  {
    m := 0;
    var rest := siblings;
    ghost var seen: set<nat> := {};
    while rest != {}
      invariant rest + seen == siblings
      invariant m >= 0
      invariant forall s :: s in seen && s != i ==> inc[s] <= m
      invariant m == 0 || exists s :: s in seen && s != i && inc[s] == m
      decreases rest
    {
      var op :| op in rest;
      if op != i && inc[op] > m {
        m := inc[op];
      }
      rest := rest - {op};
      seen := seen + {op};
    }
  }

  /** Comparing a version's count with the largest count of its siblings (0
      when none) decides the strict majority of a multi-version name. */
  lemma MajorityAgainstMost(versions: int, siblings: set<nat>, inc: seq<int>, i: nat, m: int)
    requires versions > 1 && i < |inc| && forall s :: s in siblings ==> s < |inc|
    requires m >= 0 && (forall s :: s in siblings && s != i ==> inc[s] <= m)
    requires m == 0 || exists s :: s in siblings && s != i && inc[s] == m
    ensures Majority(versions, siblings, inc, i) <==> inc[i] > m
  {
  }

  /** The inner loop of the last pass: the largest version count among the
      entries that resolve to a non-popular package, starting from 0. */
  method DeepestDep(ds: seq<Dep>, vers: seq<int>, pop: seq<bool>) returns (deepest: int)
    requires forall k :: 0 <= k < |ds| ==> ds[k].pkg < |vers| && ds[k].pkg < |pop|
    ensures deepest == MaxDepVersions(ds, vers, pop)
  {
    deepest := 0;
    for k := 0 to |ds|
      invariant deepest == MaxDepVersions(ds[..k], vers, pop)
    {
      assert ds[..k + 1][..k] == ds[..k];
      var d := ds[k].pkg;
      if !pop[d] && vers[d] > deepest {
        deepest := vers[d];
      }
    }
    assert ds[..|ds|] == ds;
  }
}
