/**
 What the index's wildcard walk finds. It compares literally until it meets a wildcard character in a stored
 key and calls fnmatch on the remainder from there; it visits the children on wildcard arcs for every query,
 and again when the query has that very character.
 */
module WildSearch {
  import opened Text
  import opened PatriciaTrie
  import opened Glob
  import opened WildSpec

  /** The matching keys at and below `t`, when `at` is the pattern collected up to and including the node's prefix. */
  function HitsFrom(t: IndexTrie, at: Str, m: Selector): multiset<Value> {
    When(m(at), t.values) + KidHits(t, at, m, CHILDMAX)
  }

  /** The hits below arc `c`, if it is there. */
  function ArcHits(t: IndexTrie, path: Str, m: Selector, c: Byte): multiset<Value> {
    if c in t.kids then HitsIn(t.kids[c], path + [c], m) else multiset{}
  }

  /** The three wildcard children, matched against the rest of the query. */
  function WildcardHits(t: IndexTrie, rest: Str): multiset<Value> {
    ArcHits(t, [], Matching(rest), STAR)
    + ArcHits(t, [], Matching(rest), QUESTION)
    + ArcHits(t, [], Matching(rest), OPEN)
  }

  /** Everything the walk collects from `t` for what is left of the query. */
  function Collected(t: IndexTrie, q: Str): multiset<Value>
    decreases |q|, 1
  {
    var n := PlainLength(t.prefix);
    if !(t.prefix[..n] <= q) then multiset{}
    else if n < |t.prefix| then HitsFrom(t, t.prefix[n..], Matching(q[n..]))
    else WildcardHits(t, q[n..]) + Beyond(t, q[n..])
  }

  /** What it collects at the end of the query or below the arc the query takes. */
  function Beyond(t: IndexTrie, rest: Str): multiset<Value>
    decreases |rest|, 0
  {
    if rest == [] then multiset(t.values)
    else if rest[0] in t.kids then Collected(t.kids[rest[0]], rest[1..])
    else multiset{}
  }

  /** What it collects once more than it should: the walk behind a wildcard arc that the query names literally. */
  function Surplus(t: IndexTrie, q: Str): multiset<Value>
    decreases |q|
  {
    if !IsPlain(t.prefix) || !(t.prefix <= q) then multiset{}
    else
      var rest := q[|t.prefix|..];
      if rest == [] || rest[0] !in t.kids then multiset{}
      else if IsWild(rest[0]) then Collected(t.kids[rest[0]], rest[1..])
      else Surplus(t.kids[rest[0]], rest[1..])
  }

  // ----- selectors that agree on the keys of a subtrie

  /** The selectors agree on all keys that continue the two paths alike. */
  ghost predicate Agree(p1: Str, m1: Selector, p2: Str, m2: Selector) {
    forall s: Str :: m1(p1 + s) == m2(p2 + s)
  }

  lemma AgreeBelow(p1: Str, m1: Selector, p2: Str, m2: Selector, u: Str)
    requires Agree(p1, m1, p2, m2)
    ensures m1(p1 + u) == m2(p2 + u)
    ensures Agree(p1 + u, m1, p2 + u, m2)
  {
    forall s: Str ensures m1(p1 + u + s) == m2(p2 + u + s) {
      assert p1 + u + s == p1 + (u + s) && p2 + u + s == p2 + (u + s);
    }
  }

  lemma {:induction false} TransferHits(t: IndexTrie, p1: Str, m1: Selector, p2: Str, m2: Selector)
    requires Agree(p1, m1, p2, m2)
    ensures HitsIn(t, p1, m1) == HitsIn(t, p2, m2)
    decreases t, CHILDMAX + 1
  {
    AgreeBelow(p1, m1, p2, m2, t.prefix);
    TransferKidHits(t, p1 + t.prefix, m1, p2 + t.prefix, m2, CHILDMAX);
  }

  lemma {:induction false} TransferKidHits(t: IndexTrie, p1: Str, m1: Selector, p2: Str, m2: Selector, c: int)
    requires Agree(p1, m1, p2, m2) && 0 <= c <= CHILDMAX
    ensures KidHits(t, p1, m1, c) == KidHits(t, p2, m2, c)
    decreases t, c
  {
    if c > 0 {
      TransferKidHits(t, p1, m1, p2, m2, c - 1);
      if c - 1 in t.kids {
        AgreeBelow(p1, m1, p2, m2, [c - 1]);
        TransferHits(t.kids[c - 1], p1 + [c - 1], m1, p2 + [c - 1], m2);
      }
    }
  }

  lemma TransferHitsFrom(t: IndexTrie, p1: Str, m1: Selector, p2: Str, m2: Selector)
    requires Agree(p1, m1, p2, m2)
    ensures HitsFrom(t, p1, m1) == HitsFrom(t, p2, m2)
  {
    AgreeBelow(p1, m1, p2, m2, []);
    assert p1 + [] == p1 && p2 + [] == p2;
    TransferKidHits(t, p1, m1, p2, m2, CHILDMAX);
  }

  lemma HitsInWhole(t: IndexTrie, m: Selector)
    ensures HitsIn(t, [], m) == HitsFrom(t, t.prefix, m)
  {
    assert [] + t.prefix == t.prefix;
  }

  lemma NoHitsFrom(t: IndexTrie, at: Str, m: Selector)
    requires Barren(at, m)
    ensures HitsFrom(t, at, m) == multiset{}
  {
    BarrenBelow(at, m, []);
    assert at + [] == at;
    NoHitsBelow(t, at, m, CHILDMAX);
  }

  /** Nothing below `path` matches. */
  ghost predicate Barren(path: Str, m: Selector) {
    forall s: Str :: !m(path + s)
  }

  lemma BarrenBelow(path: Str, m: Selector, u: Str)
    requires Barren(path, m)
    ensures !m(path + u) && Barren(path + u, m)
  {
    forall s: Str ensures !m(path + u + s) {
      assert path + u + s == path + (u + s);
    }
  }

  lemma {:induction false} NoHits(t: IndexTrie, path: Str, m: Selector)
    requires Barren(path, m)
    ensures HitsIn(t, path, m) == multiset{}
    decreases t, CHILDMAX + 1
  {
    BarrenBelow(path, m, t.prefix);
    NoHitsBelow(t, path + t.prefix, m, CHILDMAX);
  }

  lemma {:induction false} NoHitsBelow(t: IndexTrie, path: Str, m: Selector, c: int)
    requires Barren(path, m) && 0 <= c <= CHILDMAX
    ensures KidHits(t, path, m, c) == multiset{}
    decreases t, c
  {
    if c > 0 {
      NoHitsBelow(t, path, m, c - 1);
      if c - 1 in t.kids {
        BarrenBelow(path, m, [c - 1]);
        NoHits(t.kids[c - 1], path + [c - 1], m);
      }
    }
  }

  // ----- the index's match, key by key

  lemma PlainLengthOfJoin(u: Str, s: Str)
    ensures PlainLength(u) < |u| ==> PlainLength(u + s) == PlainLength(u)
    ensures PlainLength(u) <= PlainLength(u + s)
  {
    var n := PlainLength(u);
    var us := u + s;
    if n < |u| {
      assert us[..n] == u[..n];
      PlainLengthUnique(us, n);
    } else {
      PlainUpTo(u, n);
      assert forall i :: 0 <= i < n ==> us[i] == u[i];
    }
  }

  lemma PrefixOfPrefix(u: Str, n: nat, m: nat, s: Str, q: Str)
    requires n <= |u| && n <= m <= |u + s| && !(u[..n] <= q)
    ensures !((u + s)[..m] <= q)
  {
    assert (u + s)[..m][..n] == u[..n];
  }

  /** A key whose literal part leaves the query does not match. */
  lemma LiteralMismatch(u: Str, q: Str)
    requires !(u[..PlainLength(u)] <= q)
    ensures Barren(u, IndexMatching(q))
  {
    forall s: Str ensures !IndexMatching(q)(u + s) {
      PlainLengthOfJoin(u, s);
      PrefixOfPrefix(u, PlainLength(u), PlainLength(u + s), s, q);
    }
  }

  /** Behind a literal part that the query starts with, a first wildcard makes the rest a pattern. */
  lemma MatchFromWildcard(u: Str, s: Str, n: nat, q: Str)
    requires n == PlainLength(u) < |u| && u[..n] <= q
    ensures IndexMatch(u + s, q) == FnMatch(u[n..] + s, q[n..])
  {
    PlainLengthOfJoin(u, s);
    var us := u + s;
    assert us[n..] == u[n..] + s;
    assert us[..n] == u[..n];
  }

  lemma WildcardReached(u: Str, n: nat, q: Str)
    requires n == PlainLength(u) < |u| && u[..n] <= q
    ensures Agree(u, IndexMatching(q), u[n..], Matching(q[n..]))
  {
    forall s: Str ensures IndexMatching(q)(u + s) == Matching(q[n..])(u[n..] + s) {
      MatchFromWildcard(u, s, n, q);
    }
  }

  /** A plain part of the path that the query starts with can be dropped from both. */
  lemma PlainDropped(u: Str, path: Str, q: Str)
    requires IsPlain(u) && u <= q
    ensures Agree(u + path, IndexMatching(q), path, IndexMatching(q[|u|..]))
  {
    forall s: Str ensures IndexMatching(q)(u + path + s) == IndexMatching(q[|u|..])(path + s) {
      assert u + path + s == u + (path + s) && q == u + q[|u|..];
      IndexMatchPlain(u, path + s, q[|u|..]);
    }
  }

  // ----- the children of a node whose prefix is plain

  /** A wildcard arc. */
  lemma WildcardArc(t: IndexTrie, rest: Str, c: Byte)
    requires IsWild(c)
    ensures ArcHits(t, [], IndexMatching(rest), c) == ArcHits(t, [], Matching(rest), c)
  {
    if c in t.kids {
      PlainLengthUnique([c], 0);
      WildcardReached([c], 0, rest);
      assert [c][0..] == [c] && rest[0..] == rest && [] + [c] == [c];
      TransferHits(t.kids[c], [] + [c], IndexMatching(rest), [] + [c], Matching(rest));
    }
  }

  /** A plain arc that the query does not take. */
  lemma OtherArc(t: IndexTrie, rest: Str, c: Byte)
    requires !IsWild(c) && (rest == [] || rest[0] != c)
    ensures ArcHits(t, [], IndexMatching(rest), c) == multiset{}
  {
    if c in t.kids {
      PlainLengthUnique([c], 1);
      assert [c][..1] == [c] && [] + [c] == [c];
      LiteralMismatch([c], rest);
      NoHits(t.kids[c], [] + [c], IndexMatching(rest));
    }
  }

  /** The plain arc that the query takes. */
  lemma TakenArc(t: IndexTrie, rest: Str)
    requires rest != [] && !IsWild(rest[0]) && rest[0] in t.kids
    ensures ArcHits(t, [], IndexMatching(rest), rest[0]) == HitsIn(t.kids[rest[0]], [], IndexMatching(rest[1..]))
  {
    var u := [rest[0]];
    PlainDropped(u, [], rest);
    assert u + [] == [] + [rest[0]];
    TransferHits(t.kids[rest[0]], [] + [rest[0]], IndexMatching(rest), [], IndexMatching(rest[1..]));
  }

  /** The hits below the plain arc the query takes. */
  function TakenHits(t: IndexTrie, rest: Str): multiset<Value> {
    if rest != [] && !IsWild(rest[0]) && rest[0] in t.kids then HitsIn(t.kids[rest[0]], [], IndexMatching(rest[1..]))
    else multiset{}
  }

  function Before(c: int, arc: int, ms: multiset<Value>): multiset<Value> {
    if arc < c then ms else multiset{}
  }

  /** The hits below any one arc. */
  lemma ArcHitsCases(t: IndexTrie, rest: Str, c: Byte)
    ensures ArcHits(t, [], IndexMatching(rest), c)
         == if IsWild(c) then ArcHits(t, [], Matching(rest), c)
            else if rest != [] && rest[0] == c then TakenHits(t, rest)
            else multiset{}
  {
    if IsWild(c) {
      WildcardArc(t, rest, c);
    } else if rest == [] || rest[0] != c {
      OtherArc(t, rest, c);
    } else if c in t.kids {
      TakenArc(t, rest);
    }
  }

  /** The part of four arcs' hits that belongs to arcs below `c`. */
  function Upto(c: int, star: multiset<Value>, question: multiset<Value>, open: multiset<Value>,
                arc: int, taken: multiset<Value>): multiset<Value>
  {
    Before(c, STAR, star) + Before(c, QUESTION, question) + Before(c, OPEN, open) + Before(c, arc, taken)
  }

  lemma UptoNext(c: int, star: multiset<Value>, question: multiset<Value>, open: multiset<Value>,
                 arc: Byte, taken: multiset<Value>, here: multiset<Value>)
    requires here == if c == STAR then star else if c == QUESTION then question else if c == OPEN then open
                     else if c == arc then taken else multiset{}
    requires IsWild(arc) ==> taken == multiset{}
    ensures Upto(c + 1, star, question, open, arc, taken) == Upto(c, star, question, open, arc, taken) + here
  {
  }

  lemma KidHitsStep(t: IndexTrie, path: Str, m: Selector, c: Byte)
    requires c < CHILDMAX
    ensures KidHits(t, path, m, c + 1) == KidHits(t, path, m, c) + ArcHits(t, path, m, c)
  {
  }

  lemma {:induction false} KidHitsByArc(t: IndexTrie, rest: Str, c: int, arc: Byte,
                                        star: multiset<Value>, question: multiset<Value>, open: multiset<Value>)
    requires 0 <= c <= CHILDMAX && arc == if rest == [] then 0 else rest[0]
    requires star == ArcHits(t, [], Matching(rest), STAR)
    requires question == ArcHits(t, [], Matching(rest), QUESTION)
    requires open == ArcHits(t, [], Matching(rest), OPEN)
    ensures KidHits(t, [], IndexMatching(rest), c) == Upto(c, star, question, open, arc, TakenHits(t, rest))
    decreases c
  {
    if c > 0 {
      KidHitsByArc(t, rest, c - 1, arc, star, question, open);
      KidHitsStep(t, [], IndexMatching(rest), c - 1);
      ArcHitsCases(t, rest, c - 1);
      var here, taken := ArcHits(t, [], IndexMatching(rest), c - 1), TakenHits(t, rest);
      assert IsWild(arc) ==> taken == multiset{};
      UptoNext(c - 1, star, question, open, arc, taken, here);
    }
  }

  lemma KidHitsAll(t: IndexTrie, rest: Str)
    ensures KidHits(t, [], IndexMatching(rest), CHILDMAX) == WildcardHits(t, rest) + TakenHits(t, rest)
  {
    KidHitsByArc(t, rest, CHILDMAX, if rest == [] then 0 else rest[0],
                 ArcHits(t, [], Matching(rest), STAR), ArcHits(t, [], Matching(rest), QUESTION),
                 ArcHits(t, [], Matching(rest), OPEN));
  }

  /** The values of the node itself belong to the query that ends there. */
  lemma OwnHits(t: IndexTrie, rest: Str)
    ensures When(IndexMatching(rest)([]), t.values) == if rest == [] then multiset(t.values) else multiset{}
  {
    PlainLengthUnique([], 0);
    assert rest[0..] == rest;
  }

  lemma NodeHits(t: IndexTrie, q: Str)
    requires IsPlain(t.prefix) && t.prefix <= q
    ensures HitsIn(t, [], IndexMatching(q))
         == (if |q| == |t.prefix| then multiset(t.values) else multiset{})
            + (WildcardHits(t, q[|t.prefix|..]) + TakenHits(t, q[|t.prefix|..]))
  {
    var u, rest := t.prefix, q[|t.prefix|..];
    PlainDropped(u, [], q);
    assert u + [] == [] + u;
    AgreeBelow(u + [], IndexMatching(q), [], IndexMatching(rest), []);
    var none: Str := [];
    assert u + [] + [] == u + [] && none + [] == none;
    TransferKidHits(t, [] + u, IndexMatching(q), [], IndexMatching(rest), CHILDMAX);
    OwnHits(t, rest);
    KidHitsAll(t, rest);
  }

  lemma PrefixHits(t: IndexTrie, n: nat, q: Str)
    requires n == PlainLength(t.prefix) < |t.prefix| && t.prefix[..n] <= q
    ensures HitsIn(t, [], IndexMatching(q)) == HitsFrom(t, t.prefix[n..], Matching(q[n..]))
  {
    HitsInWhole(t, IndexMatching(q));
    WildcardReached(t.prefix, n, q);
    TransferHitsFrom(t, t.prefix, IndexMatching(q), t.prefix[n..], Matching(q[n..]));
  }

  lemma LeftHits(t: IndexTrie, q: Str)
    requires !(t.prefix[..PlainLength(t.prefix)] <= q)
    ensures HitsIn(t, [], IndexMatching(q)) == multiset{}
  {
    HitsInWhole(t, IndexMatching(q));
    LiteralMismatch(t.prefix, q);
    NoHitsFrom(t, t.prefix, IndexMatching(q));
  }

  // ----- the walk

  /** A prefix with a wildcard, or one the query leaves, ends the literal walk. */
  lemma WalkEnds(t: IndexTrie, n: nat, q: Str)
    requires n == PlainLength(t.prefix) && (n < |t.prefix| || !(t.prefix <= q))
    ensures Surplus(t, q) == multiset{}
    ensures Collected(t, q)
         == if t.prefix[..n] <= q then HitsFrom(t, t.prefix[n..], Matching(q[n..])) else multiset{}
  {
    PlainIsWhole(t.prefix);
  }

  lemma WalkOn(t: IndexTrie, q: Str, rest: Str)
    requires IsPlain(t.prefix) && t.prefix <= q && rest == q[|t.prefix|..]
    ensures Collected(t, q) == WildcardHits(t, rest) + Beyond(t, rest)
  {
    WalkPasses(t, q, rest);
  }

  /** A plain prefix that the query starts with is passed. */
  lemma WalkPasses(t: IndexTrie, q: Str, rest: Str)
    requires IsPlain(t.prefix) && t.prefix <= q && rest == q[|t.prefix|..]
    ensures Collected(t, q) == WildcardHits(t, rest) + Beyond(t, rest)
    ensures Surplus(t, q)
         == if rest == [] || rest[0] !in t.kids then multiset{}
            else if IsWild(rest[0]) then Collected(t.kids[rest[0]], rest[1..])
            else Surplus(t.kids[rest[0]], rest[1..])
  {
    PlainIsWhole(t.prefix);
  }

  lemma EndsWithHits(t: IndexTrie, n: nat, q: Str)
    requires n == PlainLength(t.prefix) && (n < |t.prefix| || !(t.prefix <= q))
    ensures Collected(t, q) == HitsIn(t, [], IndexMatching(q)) + Surplus(t, q)
  {
    WalkEnds(t, n, q);
    if t.prefix[..n] <= q {
      PlainIsWhole(t.prefix);
      PrefixHits(t, n, q);
    } else {
      LeftHits(t, q);
    }
  }

  /** What a passed node contributes: with its wildcard children, its own values and the child the query takes. */
  lemma PassesWithHits(t: IndexTrie, q: Str, rest: Str, below: multiset<Value>, surplus: multiset<Value>)
    requires IsPlain(t.prefix) && t.prefix <= q && rest == q[|t.prefix|..]
    requires rest != [] && rest[0] in t.kids && below == Collected(t.kids[rest[0]], rest[1..])
    requires !IsWild(rest[0]) ==> below == TakenHits(t, rest) + surplus
    requires surplus == if IsWild(rest[0]) then below else Surplus(t.kids[rest[0]], rest[1..])
    ensures Collected(t, q) == HitsIn(t, [], IndexMatching(q)) + Surplus(t, q)
  {
    NodeHits(t, q);
    WalkPasses(t, q, rest);
    assert Collected(t, q) == WildcardHits(t, rest) + below;
    assert Surplus(t, q) == surplus;
  }

  lemma StopsWithHits(t: IndexTrie, q: Str, rest: Str)
    requires IsPlain(t.prefix) && t.prefix <= q && rest == q[|t.prefix|..]
    requires rest == [] || rest[0] !in t.kids
    ensures Collected(t, q) == HitsIn(t, [], IndexMatching(q)) + Surplus(t, q)
  {
    NodeHits(t, q);
    WalkPasses(t, q, rest);
  }

  /** For every query: the walk collects the matching keys, and the surplus. */
  lemma {:induction false} CollectedIsHits(t: IndexTrie, q: Str)
    ensures Collected(t, q) == HitsIn(t, [], IndexMatching(q)) + Surplus(t, q)
    decreases |q|
  {
    PlainIsWhole(t.prefix);
    if !IsPlain(t.prefix) || !(t.prefix <= q) {
      EndsWithHits(t, PlainLength(t.prefix), q);
    } else {
      var rest := q[|t.prefix|..];
      if rest == [] || rest[0] !in t.kids {
        StopsWithHits(t, q, rest);
      } else {
        CollectedIsHits(t.kids[rest[0]], rest[1..]);
        PassesWithHits(t, q, rest, Collected(t.kids[rest[0]], rest[1..]),
          if IsWild(rest[0]) then Collected(t.kids[rest[0]], rest[1..]) else Surplus(t.kids[rest[0]], rest[1..]));
      }
    }
  }

  // ----- when it is brute force

  /** A query without wildcard characters meets no surplus. */
  lemma {:induction false} PlainQueryNoSurplus(t: IndexTrie, q: Str)
    requires IsPlain(q)
    ensures Surplus(t, q) == multiset{}
    decreases |q|
  {
    if IsPlain(t.prefix) && t.prefix <= q {
      var rest := q[|t.prefix|..];
      if rest != [] && rest[0] in t.kids {
        assert IsPlain(rest[1..]) && !IsWild(rest[0]);
        PlainQueryNoSurplus(t.kids[rest[0]], rest[1..]);
      }
    }
  }

  /** No backslash before the first wildcard of any inserted key. */
  predicate Literal(h: seq<Entry>) {
    forall i :: 0 <= i < |h| ==> NoEscape(h[i].key[..PlainLength(h[i].key)])
  }

  lemma {:induction false} HitsAgree(h: seq<Entry>, q: Str)
    requires Literal(h)
    ensures Hits(h, IndexMatching(q)) == Hits(h, Matching(q))
  {
    if h != [] {
      HitsAgree(h[..|h| - 1], q);
      IndexMatchIsFnMatch(h[|h| - 1].key, q);
    }
  }

  /**
   The wildcard search is brute force: it collects the value of each insertion whose key fnmatches the query,
   once per insertion, and nothing else.
   */
  lemma CollectedIsBruteForce(h: seq<Entry>, q: Str)
    requires ValidEntries(h) && Literal(h) && IsPlain(q)
    ensures Collected(BuildIndex(h), q) == Hits(h, Matching(q))
  {
    CollectedIsHits(BuildIndex(h), q);
    PlainQueryNoSurplus(BuildIndex(h), q);
    BuildHits(h, IndexMatching(q));
    HitsAgree(h, q);
  }

  // ----- when it is not

  /** Two keys that make the walk visit a wildcard arc twice for query `q`, whose first wildcard is at `n`. */
  function Doubling(q: Str, n: nat, v: Value): seq<Entry>
    requires n < |q|
  {
    [Entry(q[..n], v), Entry(q[..n] + [q[n], STAR], v)]
  }

  lemma InsertBelowLeaf(u: Str, c: Byte, v: Value)
    ensures Insert(Node(u, [v], map[]), u + [c, STAR], v) == Node(u, [v], map[c := Node([STAR], [v], map[])])
  {
    var key := u + [c, STAR];
    CommonUnique(u, key, |u|);
    assert key[|u|..] == [c, STAR] && key[|u| + 1..] == [STAR];
  }

  lemma DoublingTrie(q: Str, n: nat, v: Value)
    requires n < |q|
    ensures var h := Doubling(q, n, v);
            var leaf := map[q[n] := Node([STAR], [v], map[])];
            Build(h) == if n == 0 then Node([], [v], leaf) else Node([], [], map[q[0] := Node(q[1..n], [v], leaf)])
  {
    BuildTwo(Entry(q[..n], v), Entry(q[..n] + [q[n], STAR], v));
    if n == 0 {
      DoublingAtRoot(q, v);
    } else {
      FirstKey(q, n, v);
      SecondKey(q[0], q[1..n], q[n], v);
      assert q[..n] + [q[n], STAR] == [q[0]] + (q[1..n] + [q[n], STAR]);
    }
  }

  lemma DoublingAtRoot(q: Str, v: Value)
    requires q != []
    ensures Insert(Insert(EMPTY, q[..0], v), q[..0] + [q[0], STAR], v)
         == Node([], [v], map[q[0] := Node([STAR], [v], map[])])
  {
    assert q[..0] == [] && AddValue([], v) == [v] && q[..0] + [q[0], STAR] == [] + [q[0], STAR];
    InsertBelowLeaf([], q[0], v);
  }

  lemma SecondKey(a: Byte, u: Str, c: Byte, v: Value)
    ensures Insert(Node([], [], map[a := Node(u, [v], map[])]), [a] + (u + [c, STAR]), v)
         == Node([], [], map[a := Node(u, [v], map[c := Node([STAR], [v], map[])])])
  {
    var key := [a] + (u + [c, STAR]);
    assert key[0..] == key && key[1..] == u + [c, STAR];
    InsertBelowLeaf(u, c, v);
  }

  lemma BuildTwo(a: Entry, b: Entry)
    ensures Build([a, b]) == Insert(Insert(EMPTY, a.key, a.value), b.key, b.value)
  {
    var h := [a, b];
    assert h[..1] == [a] && h[..1][..0] == [];
    assert Build(h[..1]) == Insert(EMPTY, a.key, a.value);
  }

  lemma FirstKey(q: Str, n: nat, v: Value)
    requires 0 < n < |q|
    ensures Insert(EMPTY, q[..n], v) == Node([], [], map[q[0] := Node(q[1..n], [v], map[])])
  {
    var k := q[..n];
    assert k[1..] == q[1..n] && k[0] == q[0];
  }

  /** A star alone matches every query. */
  lemma StarLeaf(v: Value, q: Str)
    requires ValidValue(v)
    ensures WellFormed(Node([STAR], [v], map[])) && v in Collected(Node([STAR], [v], map[]), q)
  {
    var t: IndexTrie := Node([STAR], [v], map[]);
    PlainLengthUnique(t.prefix, 0);
    StarMatches([], q);
    assert [STAR] + [] == t.prefix == t.prefix[0..];
    assert q[|q|..] == [] && q[0..] == q;
  }

  lemma SurplusAtArc(t: IndexTrie, q: Str, v: Value)
    requires IsPlain(t.prefix) && t.prefix < q && IsWild(q[|t.prefix|]) && ValidValue(v)
    requires q[|t.prefix|] in t.kids && t.kids[q[|t.prefix|]] == Node([STAR], [v], map[])
    ensures v in Surplus(t, q)
  {
    StarLeaf(v, q[|t.prefix|..][1..]);
  }

  lemma SurplusBelow(t: IndexTrie, q: Str, v: Value)
    requires t.prefix == [] && q != [] && !IsWild(q[0]) && q[0] in t.kids && v in Surplus(t.kids[q[0]], q[1..])
    ensures v in Surplus(t, q)
  {
    assert q[0..] == q;
  }

  lemma DoublingValid(q: Str, n: nat, v: Value)
    requires IsAscii(q) && n < |q| && ValidValue(v)
    ensures ValidEntries(Doubling(q, n, v))
  {
    var h := Doubling(q, n, v);
    assert IsAscii(h[0].key) && IsAscii(h[1].key);
  }

  lemma {:induction false} DoublingSurplus(q: Str, n: nat, v: Value)
    requires IsAscii(q) && n == PlainLength(q) < |q| && ValidEntries(Doubling(q, n, v)) && ValidValue(v)
    ensures v in Surplus(BuildIndex(Doubling(q, n, v)), q)
  {
    PlainUpTo(q, n);
    DoublingTrie(q, n, v);
    var t := BuildIndex(Doubling(q, n, v));
    if n == 0 {
      SurplusAtArc(t, q, v);
    } else {
      var tail := q[1..];
      assert tail[n - 1] == q[n] && q[1..n] == tail[..n - 1];
      SurplusAtArc(t.kids[q[0]], tail, v);
      SurplusBelow(t, q, v);
    }
  }

  /** The walk finds each matching insertion once. */
  predicate Exact(q: Str, h: seq<Entry>)
    requires ValidEntries(h)
  {
    Collected(BuildIndex(h), q) == Hits(h, IndexMatching(q))
  }

  /** The walk is exact on every index if and only if the query has no wildcard characters. */
  lemma ExactIffPlainQuery(q: Str)
    requires IsAscii(q)
    ensures IsPlain(q) <==> forall h | ValidEntries(h) :: Exact(q, h)
  {
    if IsPlain(q) {
      forall h | ValidEntries(h) ensures Exact(q, h) {
        CollectedIsHits(BuildIndex(h), q);
        PlainQueryNoSurplus(BuildIndex(h), q);
        BuildHits(h, IndexMatching(q));
      }
    } else {
      var h := NotExact(q);
    }
  }

  lemma NotExact(q: Str) returns (h: seq<Entry>)
    requires IsAscii(q) && !IsPlain(q)
    ensures ValidEntries(h) && !Exact(q, h)
  {
    var v, n := Value([], 0), PlainLength(q);
    PlainIsWhole(q);
    DoublingValid(q, n, v);
    DoublingSurplus(q, n, v);
    h := Doubling(q, n, v);
    CollectedIsHits(BuildIndex(h), q);
    BuildHits(h, IndexMatching(q));
  }
}
