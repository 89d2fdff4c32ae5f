/** depmod's modules: dependencies with user counts, their topological order, and the closure it writes out. */
module Depmod {
  import opened Text
  import opened Graphs
  import opened TopologicalSort

  type Word16 = w: int | 0 <= w < 0x1_0000

  /** No more modules than a 16-bit index can hold. */
  const MODULES_MAX := 0xFFFF

  /** The modules by index: direct dependencies, number of users, place in the topological order. */
  class ModuleTable {
    var deps: Graph
    var users: seq<Word16>
    var sortIdx: seq<int>

    /** `users` counts the modules that list each module. */
    ghost predicate Valid()
      reads this
    {
      && IsGraph(deps) && |deps| < MODULES_MAX
      && |users| == |deps| == |sortIdx|
      && forall d: nat {:trigger users[d]} :: d < |deps| ==> users[d] == Users(deps, d)
    }

    /** `n` modules without dependencies */
    constructor (n: nat)
      requires n < MODULES_MAX
      ensures Valid() && deps == seq(n, _ => [])
    {
      deps := seq(n, _ => []);
      users := seq(n, _ => 0);
      sortIdx := seq(n, _ => 0);
      new;
      forall d: nat | d < n ensures Users(deps, d) == 0 {
        assert Waiting(deps, [], d) == {};
      }
    }

    /** mod_add_dependency: a symbol without owner adds nothing, a known dependency is not added again */
    method AddDependency(mod: nat, owner: Option<nat>)
      requires Valid() && mod < |deps| && (owner.Some? ==> owner.value < |deps|)
      modifies this
      ensures Valid() && sortIdx == old(sortIdx)
      ensures deps == if owner.None? || owner.value in old(deps)[mod] then old(deps)
                      else old(deps)[mod := old(deps)[mod] + [owner.value]]
    {
      if owner.None? || owner.value in deps[mod] {
        return;
      }
      var d := owner.value;
      AddedUsers(deps, mod, d);
      UsersBound(deps, d);
      deps := deps[mod := deps[mod] + [d]];
      users := users[d := users[d] + 1];
    }

    /**
     depmod_calculate_dependencies: succeeds exactly on acyclic graphs, and then numbers the modules so that
     every module comes before its dependencies, and lists each module's dependencies in that order
     */
    method CalculateDependencies() returns (ok: bool)
      requires Valid()
      modifies this
      ensures Valid() && users == old(users)
      ensures ok <==> Acyclic(old(deps))
      ensures ok ==> IsNumbering(sortIdx) && Topological(old(deps), sortIdx)
      ensures ok ==> SortedVersion(old(deps), sortIdx, deps)
      ensures !ok ==> deps == old(deps)
    {
      var order;
      ghost var counts: seq<int>;
      order, sortIdx, counts := Sort(deps, users, sortIdx);
      if |order| < |deps| {
        var m := ShortOrder(deps, counts, order);
        return false;
      }
      FullOrder(deps, counts, order, sortIdx);
      OrderedIsAcyclic(deps, sortIdx);
      NumberingOf(order, sortIdx);
      ok := true;
      SortDependencies();
    }

    /** depmod_sort_dependencies */
    method SortDependencies()
      requires Valid() && IsNumbering(sortIdx)
      modifies this`deps
      ensures Valid() && SortedVersion(old(deps), sortIdx, deps)
    {
      var i := 0;
      ghost var g := deps;
      while i < |deps|
        invariant i <= |deps| == |g|
        invariant forall m :: 0 <= m < i ==> SortedList(g[m], sortIdx, deps[m])
        invariant forall m :: i <= m < |g| ==> deps[m] == g[m]
      {
        if |deps[i]| > 1 {
          var sorted := SortByIndex(deps[i], sortIdx);
          deps := deps[i := sorted];
        } else {
          SortedAlready(deps[i], sortIdx);
        }
        i := i + 1;
      }
      SameUsers(g, sortIdx, deps);
    }
  }

  lemma UsersBound(g: Graph, d: nat)
    ensures Users(g, d) <= |g|
  {
    SubsetSize(Waiting(g, [], d), UpTo(|g|));
  }

  lemma {:induction false} SubsetSize(a: set<nat>, b: set<nat>)
    requires a <= b
    ensures |a| <= |b|
  {
    assert b == a + (b - a);
  }

  /** One more entry, one more user. */
  lemma AddedUsers(g: Graph, mod: nat, d: nat)
    requires IsGraph(g) && mod < |g| && d < |g| && d !in g[mod]
    ensures IsGraph(g[mod := g[mod] + [d]])
    ensures forall x: nat {:trigger Users(g, x)} :: Users(g[mod := g[mod] + [d]], x) == Users(g, x) + One(x == d)
  {
    forall x: nat ensures Users(g[mod := g[mod] + [d]], x) == Users(g, x) + One(x == d) {
      AddedUser(g, mod, d, g[mod := g[mod] + [d]], x);
    }
  }

  lemma AddedUser(g: Graph, mod: nat, d: nat, h: Graph, x: nat)
    requires mod < |g| && d !in g[mod] && h == g[mod := g[mod] + [d]]
    ensures Users(h, x) == Users(g, x) + One(x == d)
  {
    assert forall m :: 0 <= m < |g| ==> (x in h[m] <==> x in g[m] || (m == mod && x == d));
    if x == d {
      assert mod !in Waiting(g, [], x);
      assert Waiting(h, [], x) == Waiting(g, [], x) + {mod};
    } else {
      assert Waiting(h, [], x) == Waiting(g, [], x);
    }
  }

  // ----- topological sort

  /** The numbers 0 .. n-1, each once. */
  ghost predicate IsNumbering(idx: seq<int>) {
    && (forall m :: 0 <= m < |idx| ==> 0 <= idx[m] < |idx|)
    && (forall a, b :: 0 <= a < b < |idx| ==> idx[a] != idx[b])
  }

  ghost predicate Placed(idx: seq<int>, order: seq<nat>) {
    forall k :: 0 <= k < |order| ==> order[k] < |idx| && idx[order[k]] == k
  }

  lemma NumberingOf(order: seq<nat>, idx: seq<int>)
    requires Placed(idx, order) && |order| == |idx| && forall m: nat :: m < |idx| ==> m in order
    ensures IsNumbering(idx)
  {
    forall m: nat | m < |idx| ensures 0 <= idx[m] < |idx| && order[idx[m]] == m {
      assert m in order;
      var k :| 0 <= k < |order| && order[k] == m;
    }
  }

  /** How many modules use each module, and the stack of those that nobody uses. */
  method Populate(users: seq<Word16>, counts: array<Word16>, roots: array<Word16>) returns (nRoots: nat)
    requires counts.Length == roots.Length == |users| < MODULES_MAX && counts != roots
    modifies counts, roots
    ensures counts[..] == users && nRoots <= |users|
    ensures Distinct(roots[..nRoots]) && Below(roots[..nRoots], |users|)
    ensures forall d: nat :: d < |users| ==> (d in roots[..nRoots] <==> users[d] == 0)
  {
    var i := 0;
    nRoots := 0;
    while i < |users|
      invariant nRoots <= i <= |users|
      invariant counts[..i] == users[..i]
      invariant Distinct(roots[..nRoots]) && Below(roots[..nRoots], i)
      invariant forall d: nat :: d < i ==> (d in roots[..nRoots] <==> users[d] == 0)
    {
      counts[i] := users[i];
      if counts[i] == 0 {
        roots[nRoots] := i;
        assert roots[..nRoots + 1] == roots[..nRoots] + [i];
        nRoots := nRoots + 1;
      }
      i := i + 1;
    }
    assert counts[..] == counts[..i] && users[..i] == users;
  }

  /** The two nested loops of the topological sort. */
  method Sort(g: Graph, users: seq<Word16>, idx0: seq<int>)
    returns (order: seq<nat>, idx: seq<int>, ghost last: seq<int>)
    requires IsGraph(g) && |g| < MODULES_MAX && |users| == |g| == |idx0|
    requires forall d: nat {:trigger users[d]} :: d < |g| ==> users[d] == Users(g, d)
    ensures |order| <= |g| == |idx| && Placed(idx, order) && Sorting(g, last, [], order, [])
  {
    var n := |g|;
    var counts := new Word16[n](_ => 0);
    var roots := new Word16[n](_ => 0);
    var sorted := new Word16[n](_ => 0);
    var nRoots := Populate(users, counts, roots);
    Start(g, users, roots[..nRoots]);
    var nSorted := 0;
    idx := idx0;
    ghost var st := State(users, roots[..nRoots], [], []);
    while nRoots > 0
      invariant 0 <= nRoots <= n && 0 <= nSorted <= n && |idx| == n
      invariant st in States(g) && st == State(counts[..], roots[..nRoots], sorted[..nSorted], [])
      invariant Placed(idx, st.order)
      decreases n - nSorted
    {
      nRoots, idx, st := TakeRoot(g, counts, roots, sorted, nRoots, nSorted, idx, st);
      nSorted := nSorted + 1;
    }
    StateFits(g, st);
    order, last := sorted[..nSorted], counts[..];
  }

  /** One module off the stack: it gets the next number, and its dependencies one user less. */
  method TakeRoot(g: Graph, counts: array<Word16>, roots: array<Word16>, sorted: array<Word16>,
                  nRoots0: nat, nSorted: nat, idx0: seq<int>, ghost st0: State)
    returns (nRoots: nat, idx: seq<int>, ghost st: State)
    requires IsGraph(g) && counts.Length == roots.Length == sorted.Length == |g| == |idx0| < MODULES_MAX
    requires counts != roots && sorted != roots && sorted != counts && 0 < nRoots0 <= |g| && nSorted <= |g|
    requires st0 in States(g) && st0 == State(counts[..], roots[..nRoots0], sorted[..nSorted], [])
    requires Placed(idx0, st0.order)
    modifies counts, roots, sorted
    ensures nRoots <= |g| == |idx| && nSorted < |g|
    ensures st in States(g) && Placed(idx, st.order)
    ensures st == State(counts[..], roots[..nRoots], sorted[..nSorted + 1], [])
  {
    nRoots := nRoots0 - 1;
    var src := roots[nRoots];
    StateTake(g, st0, src, roots[..nRoots]);
    st := State(st0.users, roots[..nRoots], st0.order + [src], g[src]);
    StateFits(g, st);
    idx := idx0[src := nSorted];
    sorted[nSorted] := src;
    assert sorted[..nSorted + 1] == st.order;
    nRoots, st := CountDownAll(g, g[src], counts, roots, nRoots, st);
  }

  /** The inner loop: count down the users of each dependency, and stack those without users left. */
  method CountDownAll(g: Graph, deps: seq<nat>, counts: array<Word16>, roots: array<Word16>, nRoots0: nat,
                      ghost st0: State)
    returns (nRoots: nat, ghost st: State)
    requires counts.Length == roots.Length == |g| < MODULES_MAX && counts != roots && nRoots0 <= |g|
    requires st0 in States(g) && st0.users == counts[..] && st0.roots == roots[..nRoots0] && st0.pending == deps
    modifies counts, roots
    ensures nRoots <= |g| && st in States(g) && st == State(counts[..], roots[..nRoots], st0.order, [])
  {
    var i := 0;
    nRoots, st := nRoots0, st0;
    while i < |deps|
      invariant i <= |deps| && nRoots <= |g|
      invariant st in States(g) && st == State(counts[..], roots[..nRoots], st0.order, deps[i..])
    {
      var d := deps[i];
      StateCount(g, st);
      st := Counting(st);
      StateFits(g, st);
      counts[d] := counts[d] - 1;
      if counts[d] == 0 {
        roots[nRoots] := d;
        nRoots := nRoots + 1;
      }
      assert deps[i..][1..] == deps[i + 1..];
      i := i + 1;
    }
  }

  // ----- sorting dependency lists

  /** `r` is `s` in ascending order of index. */
  ghost predicate SortedList(s: seq<nat>, idx: seq<int>, r: seq<nat>) {
    multiset(r) == multiset(s) && Ascending(r, idx)
  }

  ghost predicate Ascending(r: seq<nat>, idx: seq<int>) {
    forall i, j :: 0 <= i < j < |r| ==> r[i] < |idx| && r[j] < |idx| && idx[r[i]] < idx[r[j]]
  }

  ghost predicate SortedVersion(g: Graph, idx: seq<int>, h: Graph) {
    |h| == |g| && forall m :: 0 <= m < |g| ==> SortedList(g[m], idx, h[m])
  }

  lemma SortedAlready(s: seq<nat>, idx: seq<int>)
    requires |s| <= 1
    ensures SortedList(s, idx, s)
  {
  }

  /** qsort with dep_cmp on a list of distinct modules */
  method SortByIndex(s: seq<nat>, idx: seq<int>) returns (r: seq<nat>)
    requires Distinct(s) && Below(s, |idx|) && IsNumbering(idx)
    ensures SortedList(s, idx, r)
  {
    r := [];
    var i := 0;
    while i < |s|
      invariant i <= |s| && multiset(r) == multiset(s[..i]) && Ascending(r, idx) && Below(r, |idx|)
    {
      NotYet(s, i, r);
      var next := Place(r, s[i], idx);
      assert s[..i + 1] == s[..i] + [s[i]];
      r := next;
      i := i + 1;
    }
    assert s[..i] == s;
  }

  lemma NotYet(s: seq<nat>, i: nat, r: seq<nat>)
    requires Distinct(s) && i < |s| && multiset(r) == multiset(s[..i])
    ensures s[i] !in r
  {
    assert s[i] !in s[..i];
    assert s[i] in r <==> s[i] in multiset(r);
  }

  method Place(r: seq<nat>, d: nat, idx: seq<int>) returns (next: seq<nat>)
    requires Ascending(r, idx) && Below(r, |idx|) && d !in r && d < |idx| && IsNumbering(idx)
    ensures Ascending(next, idx) && Below(next, |idx|) && multiset(next) == multiset(r) + multiset{d}
  {
    var k := 0;
    while k < |r| && idx[r[k]] < idx[d]
      invariant k <= |r| && forall i :: 0 <= i < k ==> idx[r[i]] < idx[d]
    {
      k := k + 1;
    }
    assert k < |r| ==> r[k] != d && idx[r[k]] != idx[d];
    assert r == r[..k] + r[k..];
    next := r[..k] + [d] + r[k..];
    PlacedAt(r, d, k, idx, next);
  }

  lemma PlacedAt(r: seq<nat>, d: nat, k: nat, idx: seq<int>, next: seq<nat>)
    requires Ascending(r, idx) && Below(r, |idx|) && d < |idx| && k <= |r|
    requires forall i :: 0 <= i < k ==> idx[r[i]] < idx[d]
    requires k < |r| ==> idx[d] < idx[r[k]]
    requires next == r[..k] + [d] + r[k..]
    ensures Ascending(next, idx)
  {
    forall i | k <= i < |r| ensures idx[d] < idx[r[i]] {
      assert i == k || idx[r[k]] < idx[r[i]];
    }
    forall i, j | 0 <= i < j < |next| ensures next[i] < |idx| && next[j] < |idx| && idx[next[i]] < idx[next[j]] {
      AscendingPair(r, d, k, idx, i, j);
    }
  }

  lemma AscendingPair(r: seq<nat>, d: nat, k: nat, idx: seq<int>, i: nat, j: nat)
    requires Ascending(r, idx) && Below(r, |idx|) && d < |idx| && k <= |r| && i < j <= |r|
    requires forall i :: 0 <= i < k ==> idx[r[i]] < idx[d]
    requires forall i :: k <= i < |r| ==> idx[d] < idx[r[i]]
    ensures var next := r[..k] + [d] + r[k..];
            next[i] < |idx| && next[j] < |idx| && idx[next[i]] < idx[next[j]]
  {
    var a, b := if i < k then i else i - 1, if j < k then j else j - 1;
    if i != k && j != k {
      assert idx[r[a]] < idx[r[b]];
    }
  }

  lemma SameElements(s: seq<nat>, r: seq<nat>)
    requires multiset(r) == multiset(s)
    ensures forall x :: x in r <==> x in s
  {
    assert forall x :: x in s <==> x in multiset(s);
    assert forall x :: x in r <==> x in multiset(r);
  }

  /** Sorting the lists changes neither the graph nor the user counts. */
  lemma SameUsers(g: Graph, idx: seq<int>, h: Graph)
    requires IsGraph(g) && |idx| == |g| && SortedVersion(g, idx, h)
    ensures IsGraph(h) && (forall a: nat, b: nat :: Edge(g, a, b) <==> Edge(h, a, b))
    ensures forall d: nat :: Users(g, d) == Users(h, d)
  {
    forall m: nat | m < |g| ensures Below(h[m], |g|) && Distinct(h[m]) && forall x: nat :: x in g[m] <==> x in h[m] {
      SameElements(g[m], h[m]);
      assert forall i :: 0 <= i < |h[m]| ==> h[m][i] in h[m];
      AscendingDistinct(g[m], idx, h[m]);
    }
    forall d: nat ensures Users(g, d) == Users(h, d) {
      assert Waiting(g, [], d) == Waiting(h, [], d);
    }
  }

  lemma AscendingDistinct(s: seq<nat>, idx: seq<int>, r: seq<nat>)
    requires SortedList(s, idx, r)
    ensures Distinct(r)
  {
  }
}
