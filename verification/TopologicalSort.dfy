/**
 Kahn's topological sort as a state: how many users of each module are still waiting, the stack of modules without
 waiting users, the order so far, and the dependencies of the current module that have not been counted down yet.
 */
module TopologicalSort {
  import opened Graphs

  /** The modules outside `done` that list `d` as a dependency. */
  function Waiting(g: Graph, done: seq<nat>, d: nat): set<nat> {
    set m | 0 <= m < |g| && m !in done && d in g[m]
  }

  function WaitingCount(g: Graph, done: seq<nat>, d: nat): nat {
    |Waiting(g, done, d)|
  }

  function One(b: bool): nat { if b then 1 else 0 }

  /** Counters: waiting users, plus one if the current module's entry for `d` is still to be counted down. */
  ghost predicate Counted(g: Graph, users: seq<int>, done: seq<nat>, pending: seq<nat>) {
    |users| == |g| &&
    forall d: nat {:trigger WaitingCount(g, done, d)} {:trigger users[d]} :: d < |g| ==>
      users[d] == WaitingCount(g, done, d) + One(d in pending)
  }

  /** The stack holds exactly the modules not yet in the order whose counter is zero. */
  ghost predicate RootsAre(users: seq<int>, roots: seq<nat>, order: seq<nat>) {
    forall d: nat :: d < |users| ==> (d in roots <==> d !in order && users[d] == 0)
  }

  /** All users of a module come before it. */
  ghost predicate UsersFirst(g: Graph, order: seq<nat>) {
    forall k, m: nat :: 0 <= k < |order| && Edge(g, m, order[k]) ==> m in order[..k]
  }

  /** What one entry of the current module may still find. */
  ghost predicate PendingFrom(g: Graph, order: seq<nat>, pending: seq<nat>) {
    && Distinct(pending) && Below(pending, |g|)
    && (pending != [] ==>
          order != [] && order[|order| - 1] < |g| && forall d :: d in pending ==> d in g[order[|order| - 1]])
  }

  ghost predicate Sorting(g: Graph, users: seq<int>, roots: seq<nat>, order: seq<nat>, pending: seq<nat>) {
    && Distinct(order + roots) && Below(order + roots, |g|)
    && Counted(g, users, order, pending)
    && RootsAre(users, roots, order)
    && UsersFirst(g, order)
    && PendingFrom(g, order, pending)
  }

  lemma WaitingShrinks(g: Graph, order: seq<nat>, src: nat, d: nat)
    requires src < |g| && src !in order
    ensures WaitingCount(g, order, d) == WaitingCount(g, order + [src], d) + One(d in g[src])
  {
    var before, after := Waiting(g, order, d), Waiting(g, order + [src], d);
    if d in g[src] {
      assert before == after + {src};
    } else {
      assert before == after;
    }
  }

  lemma NoneWaiting(g: Graph, order: seq<nat>, d: nat, m: nat)
    requires WaitingCount(g, order, d) == 0 && Edge(g, m, d)
    ensures m in order
  {
    assert m in order || m in Waiting(g, order, d);
  }

  /** Taking a module from the stack into the order. */
  lemma Take(g: Graph, users: seq<int>, roots: seq<nat>, order: seq<nat>, src: nat)
    requires IsGraph(g) && Sorting(g, users, roots + [src], order, [])
    ensures src < |g| && Sorting(g, users, roots, order + [src], g[src])
  {
    var joined := order + (roots + [src]);
    assert joined[|joined| - 1] == src;
    assert src in roots + [src];
    TakeDistinct(roots, order, src, |g|);
    TakeCounted(g, users, order, src);
    TakeRoots(users, roots, order, src);
    TakeUsersFirst(g, users, order, src);
    assert (order + [src])[|order + [src]| - 1] == src;
  }

  lemma TakeDistinct(roots: seq<nat>, order: seq<nat>, src: nat, n: nat)
    requires Distinct(order + (roots + [src])) && Below(order + (roots + [src]), n)
    ensures Distinct(order + [src] + roots) && Below(order + [src] + roots, n)
    ensures src !in order && src !in roots
  {
    var a, b := order + (roots + [src]), order + [src] + roots;
    forall i, j | 0 <= i < j < |b| ensures b[i] != b[j] {
      assert b[i] == a[Moved(|order|, |b|, i)] && b[j] == a[Moved(|order|, |b|, j)];
    }
    forall i | 0 <= i < |b| ensures b[i] < n {
      assert b[i] == a[Moved(|order|, |b|, i)];
    }
    assert a[|a| - 1] == src;
    forall i | 0 <= i < |order| ensures order[i] != src {
      assert a[i] == order[i];
    }
    forall i | 0 <= i < |roots| ensures roots[i] != src {
      assert a[|order| + i] == roots[i];
    }
  }

  /** Where the elements come from when the last one of `n` moves to position `at`. */
  function Moved(at: nat, n: nat, i: nat): nat
    requires at <= i < n || i < at < n
  {
    if i < at then i else if i == at then n - 1 else i - 1
  }

  lemma TakeCounted(g: Graph, users: seq<int>, order: seq<nat>, src: nat)
    requires src < |g| && src !in order && Counted(g, users, order, [])
    ensures Counted(g, users, order + [src], g[src])
  {
    forall d: nat | d < |g| ensures users[d] == WaitingCount(g, order + [src], d) + One(d in g[src]) {
      WaitingShrinks(g, order, src, d);
    }
  }

  lemma TakeRoots(users: seq<int>, roots: seq<nat>, order: seq<nat>, src: nat)
    requires RootsAre(users, roots + [src], order) && src !in roots
    ensures RootsAre(users, roots, order + [src])
  {
    forall d: nat | d < |users| ensures d in roots <==> d !in order + [src] && users[d] == 0 {
      assert d in roots + [src] <==> d in roots || d == src;
    }
  }

  lemma TakeUsersFirst(g: Graph, users: seq<int>, order: seq<nat>, src: nat)
    requires src < |g| && UsersFirst(g, order) && Counted(g, users, order, []) && users[src] == 0
    ensures UsersFirst(g, order + [src])
  {
    var next := order + [src];
    forall k, m: nat | 0 <= k < |next| && Edge(g, m, next[k]) ensures m in next[..k] {
      if k < |order| {
        assert next[..k] == order[..k];
      } else {
        assert next[..k] == order;
        assert users[src] == WaitingCount(g, order, src) + One(src in []);
        NoneWaiting(g, order, src, m);
      }
    }
  }

  /** A dependency of the current module has not been placed: its counter is positive. */
  lemma PendingPositive(g: Graph, users: seq<int>, roots: seq<nat>, order: seq<nat>, pending: seq<nat>)
    requires Sorting(g, users, roots, order, pending) && pending != []
    ensures pending[0] < |g| == |users| && 0 < users[pending[0]] && pending[0] !in order && pending[0] !in roots
  {
    var d, src := pending[0], order[|order| - 1];
    assert users[d] == WaitingCount(g, order, d) + One(d in pending);
    assert Edge(g, src, d);
    forall k | 0 <= k < |order| ensures order[k] != d {
      LastNotEarlier(order, roots, k);
    }
  }

  lemma LastNotEarlier(order: seq<nat>, roots: seq<nat>, k: nat)
    requires Distinct(order + roots) && k < |order|
    ensures order[|order| - 1] !in order[..k]
  {
    var all := order + roots;
    forall i | 0 <= i < k ensures order[i] != order[|order| - 1] {
      assert all[i] == order[i] && all[|order| - 1] == order[|order| - 1];
    }
  }

  /** Counting down one dependency. */
  lemma CountDown(g: Graph, users: seq<int>, roots: seq<nat>, order: seq<nat>, pending: seq<nat>, d: nat)
    requires Sorting(g, users, roots, order, pending) && pending != [] && d == pending[0]
    requires d < |users| && users[d] > 0 && d !in order && d !in roots
    ensures var users' := users[d := users[d] - 1];
            Sorting(g, users', if users'[d] == 0 then roots + [d] else roots, order, pending[1..])
  {
    var users' := users[d := users[d] - 1];
    var roots' := if users'[d] == 0 then roots + [d] else roots;
    CountDownCounted(g, users, order, pending);
    CountDownRoots(users, roots, order, d);
    if users'[d] == 0 {
      assert order + roots' == order + roots + [d];
      PushDistinct(order, roots, d);
    }
    forall x | x in pending[1..] ensures x in pending {
    }
  }

  lemma PushDistinct(order: seq<nat>, roots: seq<nat>, d: nat)
    requires Distinct(order + roots) && d !in order && d !in roots
    ensures Distinct(order + roots + [d])
  {
    assert d !in order + roots;
  }

  lemma CountDownCounted(g: Graph, users: seq<int>, order: seq<nat>, pending: seq<nat>)
    requires Counted(g, users, order, pending) && pending != [] && Distinct(pending) && pending[0] < |g|
    ensures Counted(g, users[pending[0] := users[pending[0]] - 1], order, pending[1..])
  {
    var d := pending[0];
    forall x: nat ensures x in pending[1..] <==> x in pending && x != d {
      if x in pending[1..] {
        var i :| 0 <= i < |pending| - 1 && pending[1..][i] == x;
        assert pending[i + 1] == x;
      }
      if x in pending && x != d {
        var i :| 0 <= i < |pending| && pending[i] == x;
        assert pending[1..][i - 1] == x;
      }
    }
    assert users[d] == WaitingCount(g, order, d) + One(d in pending);
  }

  lemma CountDownRoots(users: seq<int>, roots: seq<nat>, order: seq<nat>, d: nat)
    requires RootsAre(users, roots, order) && d < |users| && d !in order && users[d] > 0
    ensures var users' := users[d := users[d] - 1];
            RootsAre(users', if users'[d] == 0 then roots + [d] else roots, order)
  {
    forall x: nat ensures x in roots + [d] <==> x in roots || x == d {
    }
  }

  // ----- the end

  lemma SortingFits(g: Graph, users: seq<int>, roots: seq<nat>, order: seq<nat>, pending: seq<nat>)
    requires Sorting(g, users, roots, order, pending)
    ensures |order| + |roots| <= |g|
  {
    DistinctSize(order + roots, UpTo(|g|));
  }

  /** A full order: each module once, users first. */
  lemma FullOrder(g: Graph, users: seq<int>, order: seq<nat>, idx: seq<int>)
    requires IsGraph(g) && Sorting(g, users, [], order, []) && |order| == |g| && |idx| == |g|
    requires forall k :: 0 <= k < |order| ==> order[k] < |idx| && idx[order[k]] == k
    ensures Topological(g, idx) && (forall m: nat :: m < |g| ==> m in order)
  {
    assert order + [] == order;
    forall m: nat | m < |g| ensures m in order {
      AllPlaced(order, |g|, m);
    }
    forall a: nat, b: nat | Edge(g, a, b) && b < |g| ensures idx[a] < idx[b] {
      assert b in order;
      var k :| 0 <= k < |order| && order[k] == b;
      assert a in order[..k];
      var i :| 0 <= i < k && order[i] == a;
    }
  }

  lemma AllPlaced(order: seq<nat>, n: nat, m: nat)
    requires Distinct(order) && Below(order, n) && |order| == n && m < n
    ensures m in order
  {
    if m !in order {
      DistinctSize(order, UpTo(n) - {m});
    }
  }

  /** A short order: the modules left over all have users among themselves, so there is a cycle. */
  lemma ShortOrder(g: Graph, users: seq<int>, order: seq<nat>) returns (m: nat)
    requires IsGraph(g) && Sorting(g, users, [], order, []) && |order| < |g|
    ensures m < |g| && m !in order && Reaches(g, m, m)
  {
    var left := set k: nat | k < |g| && k !in order;
    var d := SomeLeft(order, |g|);
    forall x: nat | x in left ensures HasUser(g, left, x) {
      LeftHasUser(g, users, order, x, left);
    }
    m := UsedHasCycle(g, left, d);
  }

  lemma LeftHasUser(g: Graph, users: seq<int>, order: seq<nat>, x: nat, left: set<nat>)
    requires Counted(g, users, order, []) && RootsAre(users, [], order) && x < |g| && x !in order
    requires left == set k: nat | k < |g| && k !in order
    ensures HasUser(g, left, x)
  {
    assert x !in [];
    assert users[x] == WaitingCount(g, order, x) + One(x in []);
    var w := Waiting(g, order, x);
    assert w != {};
    var m :| m in w;
    assert Edge(g, m, x) && m in left;
  }

  lemma SomeLeft(order: seq<nat>, n: nat) returns (d: nat)
    requires |order| < n
    ensures d < n && d !in order
  {
    if forall k: nat :: k < n ==> k in order {
      CoverSize(order, UpTo(n));
      assert false;
    }
    d :| d < n && d !in order;
  }

  lemma {:induction false} CoverSize(order: seq<nat>, s: set<nat>)
    requires forall k :: k in s ==> k in order
    ensures |s| <= |order|
    decreases |order|
  {
    if order != [] {
      var last := order[|order| - 1];
      forall k | k in s - {last} ensures k in order[..|order| - 1] {
        var i :| 0 <= i < |order| && order[i] == k;
        assert order[..|order| - 1][i] == k;
      }
      CoverSize(order[..|order| - 1], s - {last});
    } else {
      assert s == {};
    }
  }

  // ----- the beginning

  function Users(g: Graph, d: nat): nat {
    WaitingCount(g, [], d)
  }

  /** The modules without users, once each, start the stack. */
  lemma Start(g: Graph, users: seq<int>, roots: seq<nat>)
    requires IsGraph(g) && |users| == |g| && forall d: nat {:trigger users[d]} :: d < |g| ==> users[d] == Users(g, d)
    requires Distinct(roots) && Below(roots, |g|) && forall d: nat :: d < |g| ==> (d in roots <==> users[d] == 0)
    ensures State(users, roots, [], []) in States(g)
  {
    assert [] + roots == roots;
    forall d: nat | d < |g| ensures users[d] == WaitingCount(g, [], d) + One(d in []) {
    }
  }

  // ----- states

  datatype State = State(users: seq<int>, roots: seq<nat>, order: seq<nat>, pending: seq<nat>)

  ghost function States(g: Graph): iset<State> {
    iset st: State | Sorting(g, st.users, st.roots, st.order, st.pending)
  }

  lemma StateFits(g: Graph, st: State)
    requires st in States(g)
    ensures |st.order| + |st.roots| <= |g| == |st.users|
    ensures Below(st.roots, |g|) && Below(st.order, |g|) && Below(st.pending, |g|)
    ensures forall d :: d in st.order ==> d !in st.roots
  {
    SortingFits(g, st.users, st.roots, st.order, st.pending);
    var all := st.order + st.roots;
    assert forall i :: 0 <= i < |st.order| ==> all[i] == st.order[i];
    forall i | 0 <= i < |st.roots| ensures st.roots[i] < |g| && st.roots[i] !in st.order {
      assert all[|st.order| + i] == st.roots[i];
    }
  }

  /** One round of the outer loop up to the first dependency. */
  lemma StateTake(g: Graph, st: State, src: nat, roots: seq<nat>)
    requires IsGraph(g) && st in States(g) && st.roots == roots + [src] && st.pending == []
    ensures src < |g| && src !in st.order
    ensures State(st.users, roots, st.order + [src], g[src]) in States(g)
  {
    Take(g, st.users, roots, st.order, src);
    var all := st.order + (roots + [src]);
    TakeDistinct(roots, st.order, src, |g|);
  }

  /** One round of the inner loop. */
  function Counting(st: State): State
    requires st.pending != [] && st.pending[0] < |st.users|
  {
    var d := st.pending[0];
    var users := st.users[d := st.users[d] - 1];
    State(users, if users[d] == 0 then st.roots + [d] else st.roots, st.order, st.pending[1..])
  }

  lemma StateCount(g: Graph, st: State)
    requires st in States(g) && st.pending != []
    ensures st.pending[0] < |g| == |st.users| && st.users[st.pending[0]] > 0
    ensures Counting(st) in States(g)
  {
    PendingPositive(g, st.users, st.roots, st.order, st.pending);
    CountDown(g, st.users, st.roots, st.order, st.pending, st.pending[0]);
  }
}
