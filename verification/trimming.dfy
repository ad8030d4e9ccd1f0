/**
  What `trimPkgs` leaves behind, stated over values: which dependency entries
  survive a table of live names, which packages survive, and how the table may
  shrink.
 */
module Trimming {
  import opened Packages
  import opened Annotations

  /** `len(pkgs[name]) > 0`: the name still has an entry in the table. */
  predicate Live(t: Table, name: string)
  {
    name in t && |t[name]| > 0
  }

  /** `u` is `t` with some names deleted: every name of `u` is a name of `t`
      with the same inner table. */
  ghost predicate SubTable(u: Table, t: Table)
  {
    forall name :: name in u ==> name in t && u[name] == t[name]
  }

  /** The entries of `ds`, in order, whose name is live in `t`. */
  function KeepLive(ds: seq<Dep>, t: Table): (r: seq<Dep>)
    ensures |r| <= |ds|
    ensures forall k :: 0 <= k < |r| ==> r[k] in ds && Live(t, r[k].name)
    ensures forall d :: d in ds && Live(t, d.name) ==> d in r
  {
    if ds == [] then []
    else
      var front := KeepLive(ds[..|ds| - 1], t);
      var d := ds[|ds| - 1];
      assert forall e :: e in ds ==> e in ds[..|ds| - 1] || e == d;
      if Live(t, d.name) then front + [d] else front
  }

  /** A single entry is kept exactly when its name is live. */
  lemma KeepLiveOne(d: Dep, t: Table)
    ensures KeepLive([d], t) == if Live(t, d.name) then [d] else []
  {
    assert [d][..0] == [];
  }

  /** Appending an entry appends it to the filter exactly when it is live. */
  lemma KeepLiveSnoc(s: seq<Dep>, d: Dep, t: Table)
    ensures KeepLive(s + [d], t) == KeepLive(s, t) + (if Live(t, d.name) then [d] else [])
  {
    assert (s + [d])[..|s|] == s;
  }

  /** The filter of a concatenation is the concatenation of the filters; with
      `KeepLiveOne` this fixes the order and the multiplicity of the kept
      entries: each live entry is kept once per occurrence, in list order. */
  lemma {:induction false} KeepLiveConcat(a: seq<Dep>, b: seq<Dep>, t: Table)
    ensures KeepLive(a + b, t) == KeepLive(a, t) + KeepLive(b, t)
  {
    if b == [] {
      assert a + b == a;
    } else {
      var front, d := b[..|b| - 1], b[|b| - 1];
      var last := if Live(t, d.name) then [d] else [];
      calc {
        KeepLive(a + b, t);
      == { assert a + b == (a + front) + [d]; }
        KeepLive((a + front) + [d], t);
      == { KeepLiveSnoc(a + front, d, t); }
        KeepLive(a + front, t) + last;
      == { KeepLiveConcat(a, front, t); }
        KeepLive(a, t) + (KeepLive(front, t) + last);
      == { assert b == front + [d]; KeepLiveSnoc(front, d, t); }
        KeepLive(a, t) + KeepLive(b, t);
      }
    }
  }

  /** Filtering keeps an entry list whole exactly when every entry is live, and
      a filtered list as long as the original is the original list (the source
      only replaces `pkg.Deps` when the length differs). */
  lemma {:induction false} KeepLiveSameLength(ds: seq<Dep>, t: Table)
    ensures (forall k :: 0 <= k < |ds| ==> Live(t, ds[k].name)) ==> KeepLive(ds, t) == ds
    ensures |KeepLive(ds, t)| == |ds| ==> forall k :: 0 <= k < |ds| ==> Live(t, ds[k].name)
  {
    if ds != [] {
      var front, d := ds[..|ds| - 1], ds[|ds| - 1];
      KeepLiveSameLength(front, t);
      assert ds == front + [d];
      if |KeepLive(ds, t)| == |ds| {
        assert Live(t, d.name) && |KeepLive(front, t)| == |front|;
        forall k | 0 <= k < |ds| ensures Live(t, ds[k].name) {
          if k < |front| {
            assert ds[k] == front[k];
          }
        }
      }
    }
  }

  /** Filtering first by a table and then by a table with fewer names is the same
      as filtering once by the smaller one: a pass over already trimmed entries
      only removes the entries of names deleted since. */
  lemma {:induction false} KeepLiveTwice(ds: seq<Dep>, t: Table, u: Table)
    requires SubTable(u, t)
    ensures KeepLive(KeepLive(ds, t), u) == KeepLive(ds, u)
  {
    if ds != [] {
      var front, d := ds[..|ds| - 1], ds[|ds| - 1];
      KeepLiveTwice(front, t, u);
      if Live(t, d.name) {
        var once := KeepLive(front, t);
        assert KeepLive(ds, t) == once + [d];
        assert (once + [d])[..|once + [d]| - 1] == once;
      }
    }
  }

  /** The dependency entries of a list all name live entries of a table holding
      every key of the list. */
  lemma EdgesLiveInTable(ps: seq<Package>, t: Table, i: nat)
    requires AllResolve(ps) && KeysPresent(ps, t) && i < |ps|
    ensures KeepLive(Edges(ps)[i], t) == Edges(ps)[i]
  {
    var es: seq<seq<Dep>> := Edges(ps);
    forall k | 0 <= k < |es[i]| ensures Live(t, es[i][k].name) {
      assert es[i][k] == ResolveIn(ps, ps[i].deps[k]);
    }
    KeepLiveSameLength(es[i], t);
  }

  /** Every entry list `ds[i]` is the start list `D0[i]` filtered by an earlier
      table `ts[i]` that holds every name of the current table `t`. */
  ghost predicate Filtered(ds: seq<seq<Dep>>, D0: seq<seq<Dep>>, t: Table, ts: seq<Table>)
  {
    |ds| == |D0| == |ts| &&
    forall i :: 0 <= i < |ds| ==> SubTable(t, ts[i]) && ds[i] == KeepLive(D0[i], ts[i])
  }

  /** Every name deleted from the start table `T0` had fewer than two versions,
      and the package at `wit[name]` has that name and no entries left. */
  ghost predicate Witnessed(ps: seq<Package>, ds: seq<seq<Dep>>, T0: Table, t: Table, wit: map<string, nat>)
  {
    forall name :: name in T0 && name !in t ==>
      name in wit && wit[name] < |ps| && wit[name] < |ds| &&
      ps[wit[name]].name == name && ds[wit[name]] == [] && |T0[name]| < 2
  }

  /** Filtering list i by the current table keeps the lists filtered, now with
      the current table recorded for list i. */
  lemma FilterStep(ds: seq<seq<Dep>>, D0: seq<seq<Dep>>, t: Table, ts: seq<Table>, i: nat)
    requires Filtered(ds, D0, t, ts) && i < |ds|
    ensures Filtered(ds[i := KeepLive(ds[i], t)], D0, t, ts[i := t])
  {
    KeepLiveTwice(D0[i], ts[i], t);
  }

  /** Filtering a list only drops entries, so the lists still point inside the
      package list, and an empty list stays empty so every witness stays. */
  lemma FilterKeeps(ps: seq<Package>, ds: seq<seq<Dep>>, T0: Table, t: Table, wit: map<string, nat>, i: nat)
    requires Shaped(ds, |ps|) && Witnessed(ps, ds, T0, t, wit) && i < |ds|
    ensures Shaped(ds[i := KeepLive(ds[i], t)], |ps|)
    ensures Witnessed(ps, ds[i := KeepLive(ds[i], t)], T0, t, wit)
  {
    var ds': seq<seq<Dep>> := ds[i := KeepLive(ds[i], t)];
    forall j: int, k: int | 0 <= j < |ps| && 0 <= k < |ds'[j]| ensures ds'[j][k].pkg < |ps| {
      if j == i {
        assert ds'[j][k] in ds[i];
      }
    }
  }

  /** Deleting the name of package i, which has a single version in the current
      table and no entries, keeps the lists filtered and records i as the
      witness of that name. */
  lemma DeleteStep(ps: seq<Package>, ds: seq<seq<Dep>>, D0: seq<seq<Dep>>, T0: Table, t: Table, ts: seq<Table>,
                   wit: map<string, nat>, i: nat)
    requires Filtered(ds, D0, t, ts) && Witnessed(ps, ds, T0, t, wit) && SubTable(t, T0)
    requires i < |ps| && i < |ds| && ps[i].name in t && |t[ps[i].name]| < 2 && ds[i] == []
    ensures Filtered(ds, D0, t - {ps[i].name}, ts)
    ensures Witnessed(ps, ds, T0, t - {ps[i].name}, wit[ps[i].name := i])
    ensures SubTable(t - {ps[i].name}, t)
  {
  }

  /** When every list was last filtered by the final table, the lists are the
      start lists filtered by it; names with two or more versions all survive;
      and every deleted name had one version and a package of that name with no
      entries. */
  lemma TrimSettled(ps: seq<Package>, ds: seq<seq<Dep>>, D0: seq<seq<Dep>>, T0: Table, t: Table, ts: seq<Table>,
                    wit: map<string, nat>)
    requires Filtered(ds, D0, t, ts) && Witnessed(ps, ds, T0, t, wit)
    requires forall i :: 0 <= i < |ts| ==> ts[i] == t
    ensures forall i :: 0 <= i < |ds| ==> ds[i] == KeepLive(D0[i], t)
    ensures forall name :: name in T0 && |T0[name]| >= 2 ==> name in t
    ensures forall name :: name in T0 && name !in t ==>
      |T0[name]| < 2 && exists i :: 0 <= i < |ps| && i < |ds| && ps[i].name == name && ds[i] == []
  {
    forall name | name in T0 && name !in t
      ensures exists i :: 0 <= i < |ps| && i < |ds| && ps[i].name == name && ds[i] == []
    {
      var i := wit[name];
      assert 0 <= i < |ps| && i < |ds| && ps[i].name == name && ds[i] == [];
    }
  }

  /** A set `R` of names is closed under removal when every package whose name
      has fewer than two versions in the start table `T0`, and none of whose
      start entries stays live once the names of `R` are deleted from `T0`, has
      its own name in `R`. */
  ghost predicate RemovalClosed(ps: seq<Package>, D0: seq<seq<Dep>>, T0: Table, R: set<string>)
  {
    forall i ::
      (0 <= i < |ps| && i < |D0| && ps[i].name in T0 && |T0[ps[i].name]| < 2 && KeepLive(D0[i], T0 - R) == [])
      ==> ps[i].name in R
  }

  /** Every name deleted from `T0` to reach `t` lies in every removal-closed set. */
  ghost predicate DeletedWithin(ps: seq<Package>, D0: seq<seq<Dep>>, T0: Table, t: Table)
  {
    forall R :: RemovalClosed(ps, D0, T0, R) ==> T0.Keys - t.Keys <= R
  }

  /** `R` is the least removal-closed set of names of `T0`: the names that
      repeated trimming must delete, and no others. */
  ghost predicate LeastRemoval(ps: seq<Package>, D0: seq<seq<Dep>>, T0: Table, R: set<string>)
  {
    R <= T0.Keys && RemovalClosed(ps, D0, T0, R) &&
    forall R' :: RemovalClosed(ps, D0, T0, R') ==> R <= R'
  }

  /** At most one set of names is the least removal-closed one. */
  lemma LeastRemovalUnique(ps: seq<Package>, D0: seq<seq<Dep>>, T0: Table, R: set<string>, R': set<string>)
    requires LeastRemoval(ps, D0, T0, R) && LeastRemoval(ps, D0, T0, R')
    ensures R == R'
  {
  }

  /** Filtering by a table `u` whose live names are all live in `t` keeps no
      entry that filtering by `t` drops; in particular a list with no entry
      live in `t` has none live in `u`. */
  lemma KeepLiveFewer(ds: seq<Dep>, t: Table, u: Table)
    requires forall name :: Live(u, name) ==> Live(t, name)
    ensures forall d :: d in KeepLive(ds, u) ==> d in KeepLive(ds, t)
    ensures KeepLive(ds, t) == [] ==> KeepLive(ds, u) == []
  {
    var r := KeepLive(ds, u);
    assert forall d :: d in r ==> d in KeepLive(ds, t);
    assert |r| > 0 ==> r[0] in r;
  }

  /** Deleting the name of package i, whose name has a single version left and
      whose start entries are all dead in the current table, keeps the deleted
      names inside every removal-closed set: such a set keeps at least the
      current table's names live, so it must hold package i's name too. */
  lemma DeleteWithin(ps: seq<Package>, D0: seq<seq<Dep>>, T0: Table, t: Table, i: nat)
    requires DeletedWithin(ps, D0, T0, t) && SubTable(t, T0)
    requires i < |ps| && i < |D0| && ps[i].name in t && |t[ps[i].name]| < 2 && KeepLive(D0[i], t) == []
    ensures DeletedWithin(ps, D0, T0, t - {ps[i].name})
  {
    var name := ps[i].name;
    forall R | RemovalClosed(ps, D0, T0, R) ensures T0.Keys - (t - {name}).Keys <= R {
      assert T0.Keys - t.Keys <= R;
      forall x | Live(T0 - R, x) ensures Live(t, x) {
        assert x in T0.Keys - t.Keys ==> x in R;
      }
      KeepLiveFewer(D0[i], t, T0 - R);
    }
  }

  /** When every list is its start list filtered by the final table `t`, no
      package is deletable in `t`, and every deleted name lies in every
      removal-closed set, then the deleted names are exactly the least
      removal-closed set. */
  lemma SettledLeast(ps: seq<Package>, ds: seq<seq<Dep>>, D0: seq<seq<Dep>>, T0: Table, t: Table)
    requires SubTable(t, T0) && DeletedWithin(ps, D0, T0, t) && |ds| == |D0|
    requires forall i :: 0 <= i < |ds| ==> ds[i] == KeepLive(D0[i], t)
    requires forall i :: 0 <= i < |ps| && i < |ds| ==> !(ps[i].name in t && |t[ps[i].name]| < 2 && ds[i] == [])
    ensures LeastRemoval(ps, D0, T0, T0.Keys - t.Keys)
  {
    var R := T0.Keys - t.Keys;
    assert T0 - R == t;
    forall i | 0 <= i < |ps| && i < |D0| && ps[i].name in T0 && |T0[ps[i].name]| < 2 && KeepLive(D0[i], T0 - R) == []
      ensures ps[i].name in R
    {
      assert ds[i] == [];
      assert ps[i].name !in t;
    }
  }

  /** What `trimPkgs` leaves behind, from the start lists `D0` and table `T0`:
      the table `t` only lost names, exactly the least removal-closed set of
      them, so every name with two or more versions stayed and every deleted
      name had one version and a package of that name with no entries left;
      every list `ds[i]` is its start list filtered by `t`; and no package is
      left deletable. */
  ghost predicate Trimmed(ps: seq<Package>, D0: seq<seq<Dep>>, T0: Table, ds: seq<seq<Dep>>, t: Table)
  {
    |ds| == |D0| && SubTable(t, T0) &&
    (forall i :: 0 <= i < |ds| ==> ds[i] == KeepLive(D0[i], t)) &&
    (forall name :: name in T0 && |T0[name]| >= 2 ==> name in t) &&
    (forall name :: name in T0 && name !in t ==>
      |T0[name]| < 2 && exists i :: 0 <= i < |ps| && i < |ds| && ps[i].name == name && ds[i] == []) &&
    (forall i :: 0 <= i < |ps| && i < |ds| ==> !(ps[i].name in t && |t[ps[i].name]| < 2 && ds[i] == [])) &&
    LeastRemoval(ps, D0, T0, T0.Keys - t.Keys)
  }

  /** The outcome of trimming is determined by its start: two trimmed results
      of the same lists and table are the same table and the same lists. */
  lemma TrimmedUnique(ps: seq<Package>, D0: seq<seq<Dep>>, T0: Table, ds: seq<seq<Dep>>, t: Table,
                      ds': seq<seq<Dep>>, t': Table)
    requires Trimmed(ps, D0, T0, ds, t) && Trimmed(ps, D0, T0, ds', t')
    ensures t == t' && ds == ds'
  {
    LeastRemovalUnique(ps, D0, T0, T0.Keys - t.Keys, T0.Keys - t'.Keys);
    assert t.Keys == t'.Keys by {
      assert t.Keys == T0.Keys - (T0.Keys - t.Keys);
      assert t'.Keys == T0.Keys - (T0.Keys - t'.Keys);
    }
    assert t == t';
  }

  /** `pkgs[pkg.Name][pkg.Ver] != nil`: the package's key is still in the table. */
  predicate Survives(t: Table, p: Package)
  {
    p.name in t && p.ver in t[p.name]
  }

  /** The positions among the first `m` of the list whose package survives, in
      increasing order. */
  function SurvivorsUpTo(ps: seq<Package>, t: Table, m: nat): (r: seq<nat>)
    requires m <= |ps|
    ensures forall a, b :: 0 <= a < b < |r| ==> r[a] < r[b]
    ensures forall i: nat :: i in r <==> i < m && Survives(t, ps[i])
  {
    if m == 0 then []
    else
      var front := SurvivorsUpTo(ps, t, m - 1);
      assert forall a :: 0 <= a < |front| ==> front[a] in front;
      if Survives(t, ps[m - 1]) then front + [m - 1] else front
  }

  /** The package list filtered by the table, keeping the input order. */
  function Survivors(ps: seq<Package>, t: Table): (r: seq<nat>)
    ensures forall a, b :: 0 <= a < b < |r| ==> r[a] < r[b]
    ensures forall i: nat :: i in r <==> i < |ps| && Survives(t, ps[i])
  {
    SurvivorsUpTo(ps, t, |ps|)
  }

  /** The positions 0..n-1 in order: the package list itself. */
  function Positions(n: nat): (r: seq<nat>)
    ensures |r| == n && forall i :: 0 <= i < n ==> r[i] == i
  {
    seq(n, i => i)
  }

  /** Against a table holding every key of the list (the table built from the
      list itself) every package survives, so filtering returns the whole list,
      in its order. */
  lemma {:induction false} SurvivorsOfFullTable(ps: seq<Package>, t: Table, m: nat)
    requires m <= |ps| && KeysPresent(ps, t)
    ensures SurvivorsUpTo(ps, t, m) == Positions(m)
  {
    if m > 0 {
      SurvivorsOfFullTable(ps, t, m - 1);
      assert Survives(t, ps[m - 1]);
      assert Positions(m - 1) + [m - 1] == Positions(m);
    }
  }
}
