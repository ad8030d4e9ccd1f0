/**
  The records of a resolved Cargo.lock as the analysis receives them, and the
  lookup table `makePkgMap` builds from them: crate name -> version -> package.
  Packages are identified by their position in the package list.
 */
module Packages {

  /** A dependency entry, already parsed from `name version (source)?`.
      The source clause plays no part in resolution and is not kept. */
  datatype DepRef = DepRef(name: string, ver: string)

  /** One `[[package]]` entry of the lockfile. */
  datatype Package = Package(name: string, ver: string, src: string, deps: seq<DepRef>)

  /** A dependency entry together with the index of the package it resolves to
      (the `Pkg` field of the source). */
  datatype Dep = Dep(name: string, ver: string, pkg: nat)

  /** name -> version -> index of the package stored under that key. */
  type Table = map<string, map<string, nat>>

  /** `v[pkg.Ver] = pkg` on the (possibly new) inner map of `pkg.Name`. */
  function Insert(t: Table, name: string, ver: string, i: nat): (r: Table)
    ensures name in r && ver in r[name] && r[name][ver] == i
    ensures r.Keys == t.Keys + {name}
    ensures r[name].Keys == (if name in t then t[name].Keys else {}) + {ver}
    ensures forall n :: n in t && n != name ==> r[n] == t[n]
    ensures name in t ==> forall v :: v in t[name] && v != ver ==> v in r[name] && r[name][v] == t[name][v]
  {
    var v := if name in t then t[name] else map[];
    t[name := v[ver := i]]
  }

  /** `i` is the last position of the list holding the key (name, ver). */
  ghost predicate LastWithKey(ps: seq<Package>, name: string, ver: string, i: nat)
  {
    i < |ps| && ps[i].name == name && ps[i].ver == ver &&
    forall j :: i < j < |ps| ==> ps[j].name != name || ps[j].ver != ver
  }

  /** Every package's key is present in the table. */
  ghost predicate KeysPresent(ps: seq<Package>, t: Table)
  {
    forall i :: 0 <= i < |ps| ==> ps[i].name in t && ps[i].ver in t[ps[i].name]
  }

  /** Every entry of the table points at the last package of the list with its key. */
  ghost predicate EntriesLast(ps: seq<Package>, t: Table)
  {
    forall name, ver :: name in t && ver in t[name] ==> LastWithKey(ps, name, ver, t[name][ver])
  }

  /** No name maps to an empty inner table. */
  ghost predicate NoEmptyName(t: Table)
  {
    forall name :: name in t ==> |t[name]| > 0
  }

  /** What the table built from `ps` satisfies. */
  ghost predicate IsTableOf(ps: seq<Package>, t: Table)
  {
    KeysPresent(ps, t) && EntriesLast(ps, t) && NoEmptyName(t)
  }

  /** The table built by inserting every package of the list in order. */
  function TableOf(ps: seq<Package>): (t: Table)
    ensures KeysPresent(ps, t)
    decreases |ps|
  {
    if ps == [] then map[]
    else
      var t := TableOf(ps[..|ps| - 1]);
      InsertKeepsKeys(ps, t);
      Insert(t, ps[|ps| - 1].name, ps[|ps| - 1].ver, |ps| - 1)
  }

  /** Inserting the last package keeps every key already present and adds the
      last package's own. */
  lemma InsertKeepsKeys(ps: seq<Package>, t: Table)
    requires |ps| > 0 && KeysPresent(ps[..|ps| - 1], t)
    ensures KeysPresent(ps, Insert(t, ps[|ps| - 1].name, ps[|ps| - 1].ver, |ps| - 1))
  {
    var t' := Insert(t, ps[|ps| - 1].name, ps[|ps| - 1].ver, |ps| - 1);
    forall i | 0 <= i < |ps| ensures ps[i].name in t' && ps[i].ver in t'[ps[i].name] {
      if i < |ps| - 1 {
        assert ps[i] == ps[..|ps| - 1][i];
      }
    }
  }

  /** The table of a list holds every key of the list, each pointing at the last
      package with that key, and no name with an empty inner table. */
  lemma {:induction false} TableOfIsTable(ps: seq<Package>)
    ensures IsTableOf(ps, TableOf(ps))
    decreases |ps|
  {
    if ps != [] {
      TableOfIsTable(ps[..|ps| - 1]);
      InsertLast(ps, TableOf(ps[..|ps| - 1]));
    }
  }

  /** Inserting the last package of a list into the table of the list without it
      gives a table of the whole list. */
  lemma InsertLast(ps: seq<Package>, t: Table)
    requires |ps| > 0 && IsTableOf(ps[..|ps| - 1], t)
    ensures IsTableOf(ps, Insert(t, ps[|ps| - 1].name, ps[|ps| - 1].ver, |ps| - 1))
  {
    var front, last := ps[..|ps| - 1], ps[|ps| - 1];
    var t' := Insert(t, last.name, last.ver, |ps| - 1);
    InsertFacts(t, last.name, last.ver, |ps| - 1);
    assert KeysPresent(ps, t') by {
      forall i | 0 <= i < |ps| ensures ps[i].name in t' && ps[i].ver in t'[ps[i].name] {
        if i < |ps| - 1 {
          assert ps[i] == front[i];
        }
      }
    }
    assert EntriesLast(ps, t') by {
      forall name, ver | name in t' && ver in t'[name] ensures LastWithKey(ps, name, ver, t'[name][ver]) {
        if name != last.name || ver != last.ver {
          LastWithKeyExtends(ps, name, ver, t[name][ver]);
        }
      }
    }
  }

  /** What one insertion does to the table. */
  lemma InsertFacts(t: Table, name: string, ver: string, i: nat)
    requires forall n :: n in t ==> |t[n]| > 0
    ensures var t' := Insert(t, name, ver, i);
      t'.Keys == t.Keys + {name} &&
      ver in t'[name] && t'[name][ver] == i &&
      (forall n, v :: n in t' && v in t'[n] && (n != name || v != ver) ==> n in t && v in t[n] && t'[n][v] == t[n][v]) &&
      (forall n, v :: n in t && v in t[n] ==> v in t'[n]) &&
      (forall n :: n in t' ==> |t'[n]| > 0)
  {
    var t' := Insert(t, name, ver, i);
    assert ver in t'[name];
  }

  /** A last position in a list stays the last one when a package with another key
      is appended. */
  lemma LastWithKeyExtends(ps: seq<Package>, name: string, ver: string, i: nat)
    requires |ps| > 0 && LastWithKey(ps[..|ps| - 1], name, ver, i)
    requires ps[|ps| - 1].name != name || ps[|ps| - 1].ver != ver
    ensures LastWithKey(ps, name, ver, i)
  {
    var front := ps[..|ps| - 1];
    assert ps[i] == front[i];
    forall j | i < j < |ps| ensures ps[j].name != name || ps[j].ver != ver {
      if j < |ps| - 1 {
        assert ps[j] == front[j];
      }
    }
  }

  /** Only one position of a list is the last one with a given key. */
  lemma LastWithKeyUnique(ps: seq<Package>, name: string, ver: string, i: nat, j: nat)
    requires LastWithKey(ps, name, ver, i) && LastWithKey(ps, name, ver, j)
    ensures i == j
  {
  }

  /** The versions stored under `name` anywhere in the list. */
  ghost function VersionsNamed(ps: seq<Package>, name: string): set<string>
  {
    set i | 0 <= i < |ps| && ps[i].name == name :: ps[i].ver
  }

  /** `versions` as the source computes it, `len(pkgs[name])`, is the number of
      distinct versions that the list holds for that name. */
  lemma VersionCountIsDistinctVersions(ps: seq<Package>, t: Table, name: string)
    requires IsTableOf(ps, t) && name in t
    ensures |t[name]| == |VersionsNamed(ps, name)|
  {
    var inner := t[name];
    forall ver | ver in inner ensures ver in VersionsNamed(ps, name) {
      var i := inner[ver];
      assert LastWithKey(ps, name, ver, i);
    }
    assert inner.Keys == VersionsNamed(ps, name);
  }

  /** The packages a table of the list keeps under `name`: for each version of
      the name, the last package of the list holding it. */
  ghost function Siblings(ps: seq<Package>, name: string): (r: set<nat>)
    ensures forall s :: s in r ==> s < |ps| && ps[s].name == name
  {
    set j: nat | j < |ps| && ps[j].name == name && LastWithKey(ps, name, ps[j].ver, j)
  }

  /** The packages stored under a name of the table (the siblings that
      `makePkgMap` compares) are exactly the siblings of the list. */
  lemma SiblingsOfTable(ps: seq<Package>, t: Table, name: string)
    requires IsTableOf(ps, t) && name in t
    ensures t[name].Values == Siblings(ps, name)
  {
    forall s | s in t[name].Values ensures s in Siblings(ps, name) {
      var ver :| ver in t[name] && t[name][ver] == s;
      assert LastWithKey(ps, name, ver, s);
    }
    forall s | s in Siblings(ps, name) ensures s in t[name].Values {
      var ver := ps[s].ver;
      assert ver in t[name];
      LastWithKeyUnique(ps, name, ver, s, t[name][ver]);
    }
  }

  /** The dependency names a package of the list. */
  ghost predicate Resolves(ps: seq<Package>, d: DepRef)
  {
    exists j :: 0 <= j < |ps| && ps[j].name == d.name && ps[j].ver == d.ver
  }

  /** Every dependency entry of every package names a package of the list: what
      a well-formed lockfile guarantees and what `makePkgMap` relies on (an entry
      that does not resolve leaves `Pkg` nil, which is then dereferenced). */
  ghost predicate AllResolve(ps: seq<Package>)
  {
    forall i, k :: 0 <= i < |ps| && 0 <= k < |ps[i].deps| ==> Resolves(ps, ps[i].deps[k])
  }

  /** `p := pkgs[dep.Name][dep.Ver]` kept beside the entry. */
  function Resolve(t: Table, d: DepRef): (r: Dep)
    requires d.name in t && d.ver in t[d.name]
    ensures r.name == d.name && r.ver == d.ver
  {
    Dep(d.name, d.ver, t[d.name][d.ver])
  }

  /** A key present in the list has a last position. */
  lemma LastExists(ps: seq<Package>, d: DepRef)
    requires Resolves(ps, d)
    ensures exists i :: LastWithKey(ps, d.name, d.ver, i)
  {
    var t := TableOf(ps);
    TableOfIsTable(ps);
    var j :| 0 <= j < |ps| && ps[j].name == d.name && ps[j].ver == d.ver;
    assert ps[j].name in t && ps[j].ver in t[ps[j].name];
    assert LastWithKey(ps, d.name, d.ver, t[d.name][d.ver]);
  }

  /** A dependency that names a package of the list, resolved against the list:
      it points at the last package of the list with its key. */
  ghost function ResolveIn(ps: seq<Package>, d: DepRef): (r: Dep)
    requires Resolves(ps, d)
    ensures r.name == d.name && r.ver == d.ver && LastWithKey(ps, d.name, d.ver, r.pkg)
  {
    LastExists(ps, d);
    var i :| LastWithKey(ps, d.name, d.ver, i);
    Dep(d.name, d.ver, i)
  }

  /** Looking a dependency up in a table of the list finds the package it
      resolves to. */
  lemma TableResolves(ps: seq<Package>, t: Table, d: DepRef)
    requires IsTableOf(ps, t) && Resolves(ps, d)
    ensures d.name in t && d.ver in t[d.name] && Resolve(t, d) == ResolveIn(ps, d)
  {
    var j :| 0 <= j < |ps| && ps[j].name == d.name && ps[j].ver == d.ver;
    assert ps[j].name in t && ps[j].ver in t[ps[j].name];
    LastWithKeyUnique(ps, d.name, d.ver, t[d.name][d.ver], ResolveIn(ps, d).pkg);
  }

  /** The resolved dependency lists of the whole graph: each entry keeps its
      name and version and points at the last package of the list with that key. */
  ghost function Edges(ps: seq<Package>): (es: seq<seq<Dep>>)
    requires AllResolve(ps)
    ensures |es| == |ps|
    ensures forall i :: 0 <= i < |ps| ==> |es[i]| == |ps[i].deps|
    ensures forall i, k :: 0 <= i < |ps| && 0 <= k < |es[i]| ==> es[i][k] == ResolveIn(ps, ps[i].deps[k])
  {
    seq(|ps|, i requires 0 <= i < |ps| =>
      seq(|ps[i].deps|, k requires 0 <= k < |ps[i].deps| => ResolveIn(ps, ps[i].deps[k])))
  }

  /** Looking up any dependency entry of the list in `t` finds the package the
      entry resolves to. */
  ghost predicate LookupsAgree(ps: seq<Package>, t: Table)
    requires AllResolve(ps)
  {
    forall i, k :: 0 <= i < |ps| && 0 <= k < |ps[i].deps| ==>
      ps[i].deps[k].name in t && ps[i].deps[k].ver in t[ps[i].deps[k].name] &&
      Resolve(t, ps[i].deps[k]) == ResolveIn(ps, ps[i].deps[k])
  }

  /** `len(t[pkg.Name])` is, for every package, the number of distinct versions
      of its name. */
  ghost predicate CountsAgree(ps: seq<Package>, t: Table)
  {
    forall i :: 0 <= i < |ps| ==> ps[i].name in t && |t[ps[i].name]| == |VersionsNamed(ps, ps[i].name)|
  }

  /** The packages stored under every package's name are its siblings. */
  ghost predicate SiblingsAgree(ps: seq<Package>, t: Table)
  {
    forall i :: 0 <= i < |ps| ==> ps[i].name in t && t[ps[i].name].Values == Siblings(ps, ps[i].name)
  }

  /** What the rest of `makePkgMap` reads from the table it built. */
  lemma TableAgrees(ps: seq<Package>)
    requires AllResolve(ps)
    ensures LookupsAgree(ps, TableOf(ps)) && CountsAgree(ps, TableOf(ps)) && SiblingsAgree(ps, TableOf(ps))
  {
    var t := TableOf(ps);
    TableOfIsTable(ps);
    forall i, k | 0 <= i < |ps| && 0 <= k < |ps[i].deps|
      ensures ps[i].deps[k].name in t && ps[i].deps[k].ver in t[ps[i].deps[k].name] &&
        Resolve(t, ps[i].deps[k]) == ResolveIn(ps, ps[i].deps[k])
    {
      TableResolves(ps, t, ps[i].deps[k]);
    }
    forall i | 0 <= i < |ps| ensures |t[ps[i].name]| == |VersionsNamed(ps, ps[i].name)| {
      VersionCountIsDistinctVersions(ps, t, ps[i].name);
    }
    forall i | 0 <= i < |ps| ensures t[ps[i].name].Values == Siblings(ps, ps[i].name) {
      SiblingsOfTable(ps, t, ps[i].name);
    }
  }
}
