/**
  The pure decisions the output stage makes from the annotations: the leverage
  report, the category of a node and of an edge in the graph drawing, the
  hyperlink of a package and its node id.
 */
module Presentation {
  import opened Packages
  import opened Annotations

  // ---------------------------------------------------------------------------
  // Leverage report
  // ---------------------------------------------------------------------------

  /** A single-version package, untainted, that directly depends on a
      non-popular version of a multi-version package. */
  predicate IsLeveragePoint(versions: int, depVersions: int, depOfMulti: bool)
  {
    versions == 1 && depVersions > 1 && !depOfMulti
  }

  /** The printed line `name @ ver brings in depname @ depver` (the arguments
      of the print call joined by single spaces). */
  function ReportLine(p: Package, d: Dep): (line: string)
  {
    p.name + " @ " + p.ver + " brings in " + d.name + " @ " + d.ver
  }

  /** Entry k of list p exists and resolves to a package with several versions. */
  predicate Brings(ds: seq<seq<Dep>>, vers: seq<int>, p: nat, k: nat)
  {
    p < |ds| && k < |ds[p]| && ds[p][k].pkg < |vers| && vers[ds[p][k].pkg] > 1
  }

  /** Position p is a leverage point by its annotations. */
  predicate LeverageAt(vers: seq<int>, dv: seq<int>, dom: seq<bool>, p: nat)
  {
    p < |vers| && p < |dv| && p < |dom| && IsLeveragePoint(vers[p], dv[p], dom[p])
  }

  /** The report lines of one package: one per entry of `ds` whose package has
      several versions, in entry order. */
  function PackageLines(p: Package, ds: seq<Dep>, vers: seq<int>): (r: seq<string>)
    requires forall k :: 0 <= k < |ds| ==> ds[k].pkg < |vers|
    ensures |r| <= |ds|
    ensures (forall k :: 0 <= k < |ds| ==> vers[ds[k].pkg] <= 1) ==> r == []
  {
    if ds == [] then []
    else
      var d := ds[|ds| - 1];
      PackageLines(p, ds[..|ds| - 1], vers) + (if vers[d.pkg] > 1 then [ReportLine(p, d)] else [])
  }

  /** The whole report over the package positions `order` (the package list,
      trimmed or not): the lines of every leverage point, in list order. */
  function Report(ps: seq<Package>, ds: seq<seq<Dep>>, vers: seq<int>, dv: seq<int>, dom: seq<bool>,
                  order: seq<nat>): (r: seq<string>)
    requires |ds| == |vers| == |dv| == |dom| == |ps| && Shaped(ds, |ps|)
    requires forall o :: 0 <= o < |order| ==> order[o] < |ps|
  {
    if order == [] then []
    else
      var p := order[|order| - 1];
      Report(ps, ds, vers, dv, dom, order[..|order| - 1]) +
      (if IsLeveragePoint(vers[p], dv[p], dom[p]) then PackageLines(ps[p], ds[p], vers) else [])
  }

  /** A line is among a package's lines exactly when it is the line of one of
      its entries whose package has several versions. */
  lemma {:induction false} PackageLinesExact(ps: seq<Package>, ds: seq<seq<Dep>>, vers: seq<int>, p: nat, m: nat, line: string)
    requires p < |ps| && p < |ds| && m <= |ds[p]| && |vers| == |ps| && Shaped(ds, |ps|)
    ensures line in PackageLines(ps[p], ds[p][..m], vers) <==>
      exists k :: 0 <= k < m && Brings(ds, vers, p, k) && line == ReportLine(ps[p], ds[p][k])
  {
    if m > 0 {
      assert ds[p][..m][..m - 1] == ds[p][..m - 1];
      PackageLinesExact(ps, ds, vers, p, m - 1, line);
    }
  }

  /** Both directions of the report's contents: a line is reported exactly
      when some listed leverage point has an entry, resolving to a package with
      several versions, whose line it is. */
  lemma {:induction false} ReportExact(ps: seq<Package>, ds: seq<seq<Dep>>, vers: seq<int>, dv: seq<int>, dom: seq<bool>,
                                       order: seq<nat>, line: string)
    requires |ds| == |vers| == |dv| == |dom| == |ps| && Shaped(ds, |ps|)
    requires forall o :: 0 <= o < |order| ==> order[o] < |ps|
    ensures line in Report(ps, ds, vers, dv, dom, order) <==>
      exists o, k: nat :: 0 <= o < |order| && LeverageAt(vers, dv, dom, order[o]) && Brings(ds, vers, order[o], k) &&
        line == ReportLine(ps[order[o]], ds[order[o]][k])
  {
    if order != [] {
      var front, p := order[..|order| - 1], order[|order| - 1];
      ReportExact(ps, ds, vers, dv, dom, front, line);
      PackageLinesExact(ps, ds, vers, p, |ds[p]|, line);
      assert ds[p][..|ds[p]|] == ds[p];
      if line in Report(ps, ds, vers, dv, dom, order) {
        if line !in Report(ps, ds, vers, dv, dom, front) {
          var k :| 0 <= k < |ds[p]| && Brings(ds, vers, p, k) && line == ReportLine(ps[p], ds[p][k]);
          assert order[|order| - 1] == p;
        } else {
          var o, k: nat :| 0 <= o < |front| && LeverageAt(vers, dv, dom, front[o]) && Brings(ds, vers, front[o], k) &&
            line == ReportLine(ps[front[o]], ds[front[o]][k]);
          assert order[o] == front[o];
        }
      } else {
        forall o, k: nat | 0 <= o < |order| && LeverageAt(vers, dv, dom, order[o]) && Brings(ds, vers, order[o], k)
          ensures line != ReportLine(ps[order[o]], ds[order[o]][k])
        {
          if o < |front| {
            assert order[o] == front[o];
          }
        }
      }
    }
  }

  /** Every leverage point has an entry of its own in the report: its deepest
      non-popular dependency has several versions. */
  lemma LeverageReported(es: seq<seq<Dep>>, vers: seq<int>, pop: seq<bool>, dom: seq<bool>, dv: seq<int>, p: nat)
    requires DepthsOf(es, vers, pop, dv) && p < |vers| && |dom| == |vers|
    requires IsLeveragePoint(vers[p], dv[p], dom[p])
    ensures exists k: nat :: Brings(es, vers, p, k) && !pop[es[p][k].pkg]
  {
    var k :| 0 <= k < |es[p]| && !pop[es[p][k].pkg] && vers[es[p][k].pkg] == dv[p];
    assert Brings(es, vers, p, k);
  }

  // ---------------------------------------------------------------------------
  // Node and edge categories
  // ---------------------------------------------------------------------------

  /** The categories of a node in the drawing; the colour the source paints
      each with is named in the comment. */
  datatype NodeCategory =
    | LeveragePoint       // blue outline, yellow fill
    | ConflictRoot        // red
    | ConflictDescendant  // orange
    | MinorityAdjacent    // yellow
    | Unaffected          // no colour

  /** The first-match chain of the node attributes. */
  function NodeCategoryOf(versions: int, depVersions: int, depOfMulti: bool, popular: bool): (c: NodeCategory)
    ensures versions >= 1 && (popular ==> versions > 1) ==> NodeRow(c, versions, depVersions, depOfMulti)
  {
    if versions == 1 && depVersions > 1 && !depOfMulti then LeveragePoint
    else if versions > 1 && !depOfMulti then ConflictRoot
    else if versions > 1 then ConflictDescendant
    else if depOfMulti && !popular then MinorityAdjacent
    else Unaffected
  }

  /** The table of node categories as independent, non-overlapping conditions
      on the version count, the taint and the depth (for a version count of at
      least one). */
  predicate NodeRow(c: NodeCategory, versions: int, depVersions: int, depOfMulti: bool)
  {
    match c
    case LeveragePoint => versions == 1 && depVersions > 1 && !depOfMulti
    case ConflictRoot => versions > 1 && !depOfMulti
    case ConflictDescendant => versions > 1 && depOfMulti
    case MinorityAdjacent => versions == 1 && depOfMulti
    case Unaffected => versions == 1 && depVersions <= 1 && !depOfMulti
  }

  /** Exactly one row of the table applies to an annotated package, and it is
      the one the chain picks: the chain's `!popular` test never matters, since
      a single-version package is never popular. */
  lemma NodeCategoryExact(versions: int, depVersions: int, depOfMulti: bool, popular: bool, c: NodeCategory)
    requires versions >= 1 && (popular ==> versions > 1)
    ensures NodeRow(c, versions, depVersions, depOfMulti) <==> c == NodeCategoryOf(versions, depVersions, depOfMulti, popular)
  {
  }

  /** Once `versions` and `popular` are set, every package gets the category
      of its row. */
  lemma NodeCategoriesOfGraph(ps: seq<Package>, vers: seq<int>, inc: seq<int>, pop: seq<bool>, dom: seq<bool>,
                              dv: seq<int>, p: nat)
    requires VersionsCounted(ps, vers) && PopularMarked(ps, vers, inc, pop)
    requires |dom| == |ps| && |dv| == |ps| && p < |ps|
    ensures NodeRow(NodeCategoryOf(vers[p], dv[p], dom[p], pop[p]), vers[p], dv[p], dom[p])
    ensures NodeCategoryOf(vers[p], dv[p], dom[p], pop[p]) == NodeCategoryOf(vers[p], dv[p], dom[p], false)
  {
    VersionBounds(ps, vers, inc, pop);
    NodeCategoryExact(vers[p], dv[p], dom[p], pop[p], NodeCategoryOf(vers[p], dv[p], dom[p], pop[p]));
  }

  /** The categories of an edge in the drawing. */
  datatype EdgeCategory =
    | MajorityLink      // blue, width 2
    | MinorityLink      // red, width 3
    | TaintPropagation  // orange
    | SourceDiverges    // blue
    | Neutral           // width 1.5

  /** The first-match chain of the edge attributes, from the source package's
      version count and taint and the target's version count and popularity. */
  function EdgeCategoryOf(srcVersions: int, srcTainted: bool, dstVersions: int, dstPopular: bool): (c: EdgeCategory)
    ensures EdgeRow(c, srcVersions, srcTainted, dstVersions, dstPopular)
  {
    if srcVersions == 1 && !srcTainted && dstVersions > 1 then
      if dstPopular then MajorityLink else MinorityLink
    else if dstVersions > 1 then TaintPropagation
    else if srcVersions > 1 then SourceDiverges
    else Neutral
  }

  /** The edge table as independent, non-overlapping conditions. */
  predicate EdgeRow(c: EdgeCategory, srcVersions: int, srcTainted: bool, dstVersions: int, dstPopular: bool)
  {
    var fromClean := srcVersions == 1 && !srcTainted;
    match c
    case MajorityLink => fromClean && dstVersions > 1 && dstPopular
    case MinorityLink => fromClean && dstVersions > 1 && !dstPopular
    case TaintPropagation => !fromClean && dstVersions > 1
    case SourceDiverges => dstVersions <= 1 && srcVersions > 1
    case Neutral => dstVersions <= 1 && srcVersions <= 1
  }

  /** Exactly one row of the edge table applies, and it is the chain's pick. */
  lemma EdgeCategoryExact(srcVersions: int, srcTainted: bool, dstVersions: int, dstPopular: bool, c: EdgeCategory)
    ensures EdgeRow(c, srcVersions, srcTainted, dstVersions, dstPopular) <==>
      c == EdgeCategoryOf(srcVersions, srcTainted, dstVersions, dstPopular)
  {
  }

  /** The category of entry k of list p. */
  function EdgeCategoryAt(es: seq<seq<Dep>>, vers: seq<int>, pop: seq<bool>, dom: seq<bool>, p: nat, k: nat): (c: EdgeCategory)
    requires Shaped(es, |vers|) && |pop| == |dom| == |vers| && p < |vers| && k < |es[p]|
  {
    var d := es[p][k].pkg;
    EdgeCategoryOf(vers[p], dom[p], vers[d], pop[d])
  }

  /** A package is drawn as a leverage point exactly when it is a clean
      single-version package with a minority link among its edges. */
  lemma LeverageIffMinorityLink(es: seq<seq<Dep>>, vers: seq<int>, pop: seq<bool>, dom: seq<bool>, dv: seq<int>, p: nat)
    requires DepthsOf(es, vers, pop, dv) && |dom| == |vers| && p < |vers|
    ensures NodeCategoryOf(vers[p], dv[p], dom[p], pop[p]) == LeveragePoint <==>
      exists k: nat :: k < |es[p]| && EdgeCategoryAt(es, vers, pop, dom, p, k) == MinorityLink
  {
    if NodeCategoryOf(vers[p], dv[p], dom[p], pop[p]) == LeveragePoint {
      var k :| 0 <= k < |es[p]| && !pop[es[p][k].pkg] && vers[es[p][k].pkg] == dv[p];
      assert EdgeCategoryAt(es, vers, pop, dom, p, k) == MinorityLink;
    }
    if k: nat :| k < |es[p]| && EdgeCategoryAt(es, vers, pop, dom, p, k) == MinorityLink {
      assert vers[es[p][k].pkg] <= dv[p];
    }
  }

  // ---------------------------------------------------------------------------
  // Hyperlinks and node ids
  // ---------------------------------------------------------------------------

  /** The hyperlink of a package. A `git+http` source is rewritten by a URL
      parser this model does not include; `GitLink` carries the raw URL (the
      source without its `git+` prefix) that the parser is given. */
  datatype Link = GitLink(rawurl: string) | Url(text: string)

  predicate HasPrefix(s: string, prefix: string)
  {
    prefix <= s
  }

  /** The base URL followed by exactly one separating slash. */
  function WithSlash(baseurl: string): (r: string)
    requires baseurl != []
    ensures r == baseurl || r == baseurl + "/"
    ensures r[|r| - 1] == '/'
    ensures r == baseurl <==> baseurl[|baseurl| - 1] == '/'
  {
    if baseurl[|baseurl| - 1] != '/' then baseurl + "/" else baseurl
  }

  /** `WriteUrl`: the git branch first, then an in-workspace crate under the
      base URL, then the registry page (with the version when `specific`),
      else a search for the name. */
  function PackageUrl(p: Package, specific: bool, baseurl: string): (l: Link)
    ensures l.GitLink? <==> HasPrefix(p.src, "git+http")
    ensures l.Url? ==> HasPrefix(l.text, "https://crates.io/") || (p.src == "" && baseurl != "" && HasPrefix(l.text, WithSlash(baseurl)))
  {
    if HasPrefix(p.src, "git+http") then GitLink(p.src[4..])
    else if p.src == "" && baseurl != "" then Url(WithSlash(baseurl) + p.name + "/Cargo.toml")
    else if HasPrefix(p.src, "registry") then
      Url("https://crates.io/crates/" + p.name + (if specific then "/" + p.ver else ""))
    else Url("https://crates.io/search?q=" + p.name)
  }

  /** An in-workspace crate links to its manifest under the base URL, joined
      by exactly one slash, and a base URL given with or without its trailing
      slash yields the same link. */
  lemma WorkspaceUrl(p: Package, specific: bool, baseurl: string)
    requires p.src == "" && baseurl != ""
    ensures PackageUrl(p, specific, baseurl) == Url(WithSlash(baseurl) + p.name + "/Cargo.toml")
    ensures baseurl[|baseurl| - 1] != '/' ==> PackageUrl(p, specific, baseurl) == PackageUrl(p, specific, baseurl + "/")
    ensures baseurl[|baseurl| - 1] != '/' ==> PackageUrl(p, specific, baseurl) == Url(baseurl + "/" + p.name + "/Cargo.toml")
  {
    var b' := baseurl + "/";
    assert b'[|b'| - 1] == '/';
  }

  /** A registry crate's version link is its project link followed by `/` and
      the version; neither depends on the base URL. */
  lemma RegistryUrl(p: Package, baseurl: string, baseurl': string)
    requires HasPrefix(p.src, "registry")
    ensures PackageUrl(p, false, baseurl) == Url("https://crates.io/crates/" + p.name)
    ensures PackageUrl(p, true, baseurl') == Url("https://crates.io/crates/" + p.name + "/" + p.ver)
  {
    assert !HasPrefix(p.src, "git+http") by {
      assert p.src[0] == 'r';
    }
  }

  /** Without a base URL an unsourced crate falls through to the search link,
      as does any source that is neither git nor registry; the search link does
      not depend on `specific`. */
  lemma SearchUrl(p: Package, specific: bool, baseurl: string)
    requires !HasPrefix(p.src, "git+http") && !HasPrefix(p.src, "registry")
    requires p.src != "" || baseurl == ""
    ensures PackageUrl(p, specific, baseurl) == Url("https://crates.io/search?q=" + p.name)
    ensures PackageUrl(p, specific, baseurl) == PackageUrl(p, !specific, "")
  {
  }

  /** A git source always goes to the git branch, whatever the base URL, and
      hands over the source without its `git+` prefix. */
  lemma GitUrl(p: Package, specific: bool, baseurl: string)
    requires HasPrefix(p.src, "git+http")
    ensures PackageUrl(p, specific, baseurl) == GitLink(p.src[4..])
    ensures "git+" + PackageUrl(p, specific, baseurl).rawurl == p.src
  {
    assert p.src == p.src[..4] + p.src[4..];
  }

  /** `writeDotId`: the node id `name@ver`. */
  function DotId(p: Package): (id: string)
    ensures |id| == |p.name| + 1 + |p.ver| && id[|p.name|] == '@'
  {
    p.name + "@" + p.ver
  }

  /** Node ids tell packages apart by key as long as names carry no `@` (crate
      names never do): equal ids mean equal names and versions. */
  lemma DotIdInjective(p: Package, q: Package)
    requires '@' !in p.name && '@' !in q.name
    ensures DotId(p) == DotId(q) <==> p.name == q.name && p.ver == q.ver
  {
    if DotId(p) == DotId(q) {
      var id := DotId(p);
      assert p.name == id[..|p.name|] == q.name;
      assert p.ver == id[|p.name| + 1..] == q.ver;
    }
  }
}
