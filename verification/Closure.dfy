/** All direct and indirect dependencies of a module, as depmod writes them. */
module Closure {
  import opened Graphs
  import opened Depmod

  /**
   The walk of `mod`'s dependencies has added to `deps` the first `i` of them with all that is below:
   only dependencies of `mod`, nothing twice, and with every added module its own dependencies.
   */
  ghost predicate Partial(g: Graph, mod: nat, deps: seq<nat>, r: seq<nat>, i: nat)
    requires mod < |g| && i <= |g[mod]|
  {
    && deps <= r && Distinct(r) && Below(r, |g|)
    && (forall k :: 0 <= k < i ==> g[mod][k] in r)
    && (forall x :: x in r && x !in deps ==> Reaches(g, mod, x))
    && (forall x, y: nat :: x in r && x !in deps && Edge(g, x, y) ==> y in r)
  }

  ghost function Fillings(g: Graph, mod: nat, deps: seq<nat>, i: nat): iset<seq<nat>>
    requires mod < |g| && i <= |g[mod]|
  {
    iset r: seq<nat> | Partial(g, mod, deps, r, i)
  }

  lemma Known(g: Graph, mod: nat, deps: seq<nat>, r: seq<nat>, i: nat)
    requires mod < |g| && i < |g[mod]| && r in Fillings(g, mod, deps, i) && g[mod][i] in r
    ensures r in Fillings(g, mod, deps, i + 1)
  {
  }

  lemma Added(g: Graph, mod: nat, deps: seq<nat>, r: seq<nat>, i: nat, d: nat, more: seq<nat>)
    requires mod < |g| && i < |g[mod]| && r in Fillings(g, mod, deps, i) && d == g[mod][i] && d !in r
    requires d < |g| && more in Fillings(g, d, r + [d], |g[d]|)
    ensures more in Fillings(g, mod, deps, i + 1)
  {
    assert r == (r + [d])[..|r|] == more[..|r|];
    assert forall x :: x in r ==> x in r + [d];
    assert forall x :: x in r + [d] ==> x in more;
    AddedReached(g, mod, deps, r, i, d, more);
    AddedClosed(g, mod, deps, r, i, d, more);
  }

  /** What was added is below `mod`. */
  lemma AddedReached(g: Graph, mod: nat, deps: seq<nat>, r: seq<nat>, i: nat, d: nat, more: seq<nat>)
    requires mod < |g| && i < |g[mod]| && r in Fillings(g, mod, deps, i) && d == g[mod][i]
    requires d < |g| && more in Fillings(g, d, r + [d], |g[d]|)
    ensures forall x :: x in more && x !in deps ==> Reaches(g, mod, x)
  {
    assert Edge(g, mod, d);
    ReachesEdge(g, mod, d);
    forall x | x in more && x !in deps ensures Reaches(g, mod, x) {
      if x in r + [d] {
        assert x in r || x == d;
      } else {
        ReachesTransitive(g, mod, d, x);
      }
    }
  }

  /** ... and has its own dependencies with it. */
  lemma AddedClosed(g: Graph, mod: nat, deps: seq<nat>, r: seq<nat>, i: nat, d: nat, more: seq<nat>)
    requires mod < |g| && i < |g[mod]| && r in Fillings(g, mod, deps, i)
    requires d < |g| && more in Fillings(g, d, r + [d], |g[d]|) && forall x :: x in r ==> x in more
    ensures forall x, y: nat :: x in more && x !in deps && Edge(g, x, y) ==> y in more
  {
    forall x, y: nat | x in more && x !in deps && Edge(g, x, y) ensures y in more {
      if x == d {
        var k :| 0 <= k < |g[d]| && g[d][k] == y;
      } else if x in r {
        assert y in r;
      } else {
        assert x !in r + [d];
      }
    }
  }

  method FillAllUnique(g: Graph, mod: nat, deps: seq<nat>) returns (r: seq<nat>)
    requires IsGraph(g) && mod < |g| && Distinct(deps) && Below(deps, |g|)
    ensures r in Fillings(g, mod, deps, |g[mod]|)
    ensures deps <= r && Distinct(r) && Below(r, |g|)
    decreases |g| - |deps|
  {
    var i := 0;
    r := deps;
    while i < |g[mod]|
      invariant i <= |g[mod]| && r in Fillings(g, mod, deps, i)
      invariant |deps| <= |r| && Distinct(r) && Below(r, |g|)
    {
      var d := g[mod][i];
      if d in r {
        Known(g, mod, deps, r, i);
      } else {
        Room(g, r, d);
        var more := FillAllUnique(g, d, r + [d]);
        Added(g, mod, deps, r, i, d, more);
        r := more;
      }
      i := i + 1;
    }
  }

  lemma Room(g: Graph, r: seq<nat>, d: nat)
    requires Distinct(r) && Below(r, |g|) && d !in r && d < |g|
    ensures |r| < |g| && Distinct(r + [d]) && Below(r + [d], |g|)
  {
    DistinctSize(r + [d], UpTo(|g|));
  }

  /** Without duplicates, exactly the modules reachable by one or more dependencies, on every graph. */
  lemma FilledIsClosure(g: Graph, mod: nat, r: seq<nat>)
    requires mod < |g| && r in Fillings(g, mod, [], |g[mod]|)
    ensures Distinct(r) && forall x: nat :: x in r <==> Reaches(g, mod, x)
  {
    var s := set x | x in r;
    forall b: nat | Edge(g, mod, b) ensures b in s {
      var k :| 0 <= k < |g[mod]| && g[mod][k] == b;
    }
    forall x: nat | Reaches(g, mod, x) ensures x in r {
      ClosedContains(g, mod, s, x);
    }
  }

  /** Modules in ascending order of index, exactly the direct and indirect dependencies of `mod`. */
  ghost predicate IsClosure(g: Graph, idx: seq<int>, mod: nat, r: seq<nat>) {
    && Distinct(r) && Below(r, |g|) && Ascending(r, idx)
    && forall x: nat :: x in r <==> Reaches(g, mod, x)
  }

  /** mod_get_all_sorted_dependencies */
  method AllSortedDependencies(g: Graph, idx: seq<int>, mod: nat) returns (r: seq<nat>)
    requires IsGraph(g) && mod < |g| == |idx| && IsNumbering(idx)
    ensures IsClosure(g, idx, mod, r)
  {
    var all := FillAllUnique(g, mod, []);
    FilledIsClosure(g, mod, all);
    if |all| > 1 {
      r := SortByIndex(all, idx);
    } else {
      r := all;
    }
    SameElements(all, r);
    AscendingDistinct(all, idx, r);
    assert forall i :: 0 <= i < |r| ==> r[i] in r;
  }

  /** On an acyclic graph, each entry precedes all its own dependencies, and the module itself is not listed. */
  lemma ClosureOrder(g: Graph, idx: seq<int>, mod: nat, r: seq<nat>, i: nat, x: nat)
    requires IsGraph(g) && Topological(g, idx) && IsClosure(g, idx, mod, r) && i < |r| && Reaches(g, r[i], x)
    ensures x in r[i + 1..] && x !in r[..i + 1] && mod !in r
  {
    assert r[i] in r;
    ReachesTransitive(g, mod, r[i], x);
    ReachesIncreases(g, idx, r[i], x);
    assert x in r;
    var j :| 0 <= j < |r| && r[j] == x;
    assert i < j;
    assert r[i + 1..][j - i - 1] == x;
    OrderedIsAcyclic(g, idx);
  }

  /** The sorted closure is determined by the graph and the numbering. */
  lemma {:induction false} ClosureUnique(idx: seq<int>, a: seq<nat>, b: seq<nat>)
    requires Ascending(a, idx) && Ascending(b, idx) && forall x: nat :: x in a <==> x in b
    ensures a == b
    decreases |a|
  {
    if a == [] {
      HeadMember(b);
    } else {
      assert a[0] in a;
      assert a[0] in b;
      assert b[0] in b;
      var j :| 0 <= j < |b| && b[j] == a[0];
      var i :| 0 <= i < |a| && a[i] == b[0];
      assert a[0] == b[0];
      forall x: nat ensures x in a[1..] <==> x in b[1..] {
        TailMember(a, x);
        TailMember(b, x);
      }
      ClosureUnique(idx, a[1..], b[1..]);
      assert a == [a[0]] + a[1..] && b == [b[0]] + b[1..];
    }
  }

  lemma HeadMember(a: seq<nat>)
    ensures a != [] ==> a[0] in a
  {
  }

  lemma TailMember(a: seq<nat>, x: nat)
    requires a != [] && Distinct(a)
    ensures x in a[1..] <==> x in a && x != a[0]
  {
  }
}
