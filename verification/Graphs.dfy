/** Dependency graphs over modules 0 .. n-1, walks, cycles and reachability. */
module Graphs {

  /** `g[m]` lists the direct dependencies of module `m`, each once. */
  type Graph = seq<seq<nat>>

  predicate Distinct(s: seq<nat>) {
    forall i, j :: 0 <= i < j < |s| ==> s[i] != s[j]
  }

  predicate Below(s: seq<nat>, n: nat) {
    forall i :: 0 <= i < |s| ==> s[i] < n
  }

  /** The numbers below `n`. */
  function UpTo(n: nat): (s: set<nat>)
    ensures |s| == n && forall m: nat :: m in s <==> m < n
  {
    if n == 0 then {} else UpTo(n - 1) + {n - 1}
  }

  function Elements(s: seq<nat>): set<nat> {
    set x | x in s
  }

  predicate IsGraph(g: Graph) {
    forall m :: 0 <= m < |g| ==> Below(g[m], |g|) && Distinct(g[m])
  }

  predicate Edge(g: Graph, a: nat, b: nat) {
    a < |g| && b in g[a]
  }

  /** Each module of the walk depends directly on the next. */
  predicate IsWalk(g: Graph, p: seq<nat>) {
    forall i :: 0 < i < |p| ==> Edge(g, p[i - 1], p[i])
  }

  /** `b` is a direct or indirect dependency of `a`. */
  ghost predicate Reaches(g: Graph, a: nat, b: nat) {
    exists p :: |p| > 1 && p[0] == a && p[|p| - 1] == b && IsWalk(g, p)
  }

  ghost predicate Acyclic(g: Graph) {
    forall m :: !Reaches(g, m, m)
  }

  lemma ReachesEdge(g: Graph, a: nat, b: nat)
    requires Edge(g, a, b)
    ensures Reaches(g, a, b)
  {
    var p := [a, b];
    assert IsWalk(g, p) && p[|p| - 1] == b;
  }

  lemma ReachesTransitive(g: Graph, a: nat, b: nat, c: nat)
    requires Reaches(g, a, b) && Reaches(g, b, c)
    ensures Reaches(g, a, c)
  {
    var p :| |p| > 1 && p[0] == a && p[|p| - 1] == b && IsWalk(g, p);
    var q :| |q| > 1 && q[0] == b && q[|q| - 1] == c && IsWalk(g, q);
    var r := p + q[1..];
    forall i | 0 < i < |r| ensures Edge(g, r[i - 1], r[i]) {
      if i < |p| {
        assert Edge(g, p[i - 1], p[i]);
      } else {
        var k := i - |p| + 1;
        assert r[i - 1] == q[k - 1] && r[i] == q[k];
        assert Edge(g, q[k - 1], q[k]);
      }
    }
    assert r[0] == a && r[|r| - 1] == c && IsWalk(g, r);
  }

  // ----- closed sets

  /** With each member, all its dependencies belong to the set, and so do those of `a`. */
  ghost predicate ClosedFrom(g: Graph, a: nat, s: set<nat>) {
    && (forall b :: Edge(g, a, b) ==> b in s)
    && (forall x, b :: x in s && Edge(g, x, b) ==> b in s)
  }

  lemma ClosedContains(g: Graph, a: nat, s: set<nat>, b: nat)
    requires ClosedFrom(g, a, s) && Reaches(g, a, b)
    ensures b in s
  {
    var p :| |p| > 1 && p[0] == a && p[|p| - 1] == b && IsWalk(g, p);
    WalkInside(g, a, s, p, |p| - 1);
  }

  lemma {:induction false} WalkInside(g: Graph, a: nat, s: set<nat>, p: seq<nat>, i: nat)
    requires ClosedFrom(g, a, s) && IsWalk(g, p) && 0 < i < |p| && p[0] == a
    ensures p[i] in s
  {
    assert Edge(g, p[i - 1], p[i]);
    if i > 1 {
      WalkInside(g, a, s, p, i - 1);
    }
  }

  // ----- order and cycles

  /** Every module has a smaller index than its dependencies. */
  ghost predicate Topological(g: Graph, idx: seq<int>) {
    |idx| == |g| && forall a: nat, b: nat :: Edge(g, a, b) && b < |g| ==> idx[a] < idx[b]
  }

  lemma {:induction false} WalkIncreases(g: Graph, idx: seq<int>, p: seq<nat>, i: nat)
    requires IsGraph(g) && Topological(g, idx) && IsWalk(g, p) && 0 < i < |p|
    ensures p[0] < |g| && p[i] < |g| && idx[p[0]] < idx[p[i]]
  {
    assert Edge(g, p[i - 1], p[i]);
    if i > 1 {
      WalkIncreases(g, idx, p, i - 1);
    }
  }

  lemma ReachesIncreases(g: Graph, idx: seq<int>, a: nat, b: nat)
    requires IsGraph(g) && Topological(g, idx) && Reaches(g, a, b)
    ensures a < |g| && b < |g| && idx[a] < idx[b]
  {
    var p :| |p| > 1 && p[0] == a && p[|p| - 1] == b && IsWalk(g, p);
    WalkIncreases(g, idx, p, |p| - 1);
  }

  /** A topological order excludes cycles. */
  lemma OrderedIsAcyclic(g: Graph, idx: seq<int>)
    requires IsGraph(g) && Topological(g, idx)
    ensures Acyclic(g)
  {
    forall m ensures !Reaches(g, m, m) {
      if Reaches(g, m, m) {
        ReachesIncreases(g, idx, m, m);
      }
    }
  }

  /** Every member has a user in the set. */
  ghost predicate AllUsed(g: Graph, s: set<nat>) {
    forall d: nat {:trigger HasUser(g, s, d)} :: d in s ==> HasUser(g, s, d)
  }

  ghost predicate HasUser(g: Graph, s: set<nat>, d: nat) {
    exists m: nat :: m in s && Edge(g, m, d)
  }

  /** Walking back from user to user, any number of steps. */
  lemma {:induction false} WalkBack(g: Graph, s: set<nat>, d: nat, k: nat) returns (p: seq<nat>)
    requires AllUsed(g, s) && d in s
    ensures |p| == k + 1 && IsWalk(g, p) && forall i :: 0 <= i < |p| ==> p[i] in s
  {
    if k == 0 {
      p := [d];
    } else {
      var q := WalkBack(g, s, d, k - 1);
      p := OneBack(g, s, q);
    }
  }

  lemma OneBack(g: Graph, s: set<nat>, q: seq<nat>) returns (p: seq<nat>)
    requires AllUsed(g, s) && q != [] && IsWalk(g, q) && forall i :: 0 <= i < |q| ==> q[i] in s
    ensures |p| == |q| + 1 && IsWalk(g, p) && forall i :: 0 <= i < |p| ==> p[i] in s
  {
    assert HasUser(g, s, q[0]);
    var m: nat :| m in s && Edge(g, m, q[0]);
    p := [m] + q;
    forall i | 0 < i < |p| ensures Edge(g, p[i - 1], p[i]) {
      if i > 1 {
        assert Edge(g, q[i - 2], q[i - 1]);
      }
    }
  }

  lemma {:induction false} DistinctSize(p: seq<nat>, s: set<nat>)
    requires Distinct(p) && forall i :: 0 <= i < |p| ==> p[i] in s
    ensures |p| <= |s|
    decreases |p|
  {
    if p != [] {
      var last := p[|p| - 1];
      DistinctSize(p[..|p| - 1], s - {last});
    }
  }

  /** A nonempty set in which every member has a user contains a cycle. */
  lemma UsedHasCycle(g: Graph, s: set<nat>, d: nat) returns (m: nat)
    requires AllUsed(g, s) && d in s
    ensures m in s && Reaches(g, m, m)
  {
    var p := WalkBack(g, s, d, |s|);
    var i, j := Pigeonhole(p, s);
    m := p[i];
    LoopInWalk(g, p, i, j);
  }

  lemma Pigeonhole(p: seq<nat>, s: set<nat>) returns (i: nat, j: nat)
    requires |p| > |s| && forall i :: 0 <= i < |p| ==> p[i] in s
    ensures i < j < |p| && p[i] == p[j]
  {
    if Distinct(p) {
      DistinctSize(p, s);
      assert false;
    }
    i, j :| 0 <= i < j < |p| && p[i] == p[j];
  }

  lemma LoopInWalk(g: Graph, p: seq<nat>, i: nat, j: nat)
    requires IsWalk(g, p) && i < j < |p| && p[i] == p[j]
    ensures Reaches(g, p[i], p[i])
  {
    var q := p[i..j + 1];
    forall k | 0 < k < |q| ensures Edge(g, q[k - 1], q[k]) {
      assert Edge(g, p[i + k - 1], p[i + k]);
    }
    assert q[0] == p[i] && q[|q| - 1] == p[i] && IsWalk(g, q);
  }
}
