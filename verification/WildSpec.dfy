/**
 Wildcard lookup: every stored key is a pattern, and a query collects the values of all keys that match it.
 The brute-force definition over a trie, its agreement with the list of insertions,
 and what the index's search, which compares literally until it meets a wildcard, finds instead.
 */
module WildSpec {
  import opened Text
  import opened PatriciaTrie
  import opened Glob

  /** A choice of keys. */
  type Selector = Str -> bool

  /** The keys that fnmatch the query. */
  function Matching(q: Str): Selector {
    k => FnMatch(k, q)
  }

  /** The keys that match the query by the index's literal-then-fnmatch rule. */
  function IndexMatching(q: Str): Selector {
    k => IndexMatch(k, q)
  }

  function When(b: bool, vs: seq<Value>): multiset<Value> {
    if b then multiset(vs) else multiset{}
  }

  /** The values of all inserted entries whose key matches. */
  function Hits(h: seq<Entry>, m: Selector): multiset<Value> {
    if h == [] then multiset{}
    else
      var last := h[|h| - 1];
      Hits(h[..|h| - 1], m) + When(m(last.key), [last.value])
  }

  /** The insertions of a value under a key that matches. */
  ghost function Insertions(h: seq<Entry>, m: Selector, v: Value): set<nat> {
    set i: nat | i < |h| && m(h[i].key) && h[i].value == v
  }

  lemma InsertionsNext(h: seq<Entry>, m: Selector, v: Value, n: nat)
    requires |h| == n + 1
    ensures var last := h[n];
            Insertions(h, m, v) == Insertions(h[..n], m, v) + if m(last.key) && last.value == v then {n} else {}
  {
    forall i: nat ensures i < n ==> h[..n][i] == h[i] {
    }
  }

  /** Each insertion with a matching key counts once. */
  lemma {:induction false} HitsCounted(h: seq<Entry>, m: Selector, v: Value)
    ensures Hits(h, m)[v] == |Insertions(h, m, v)|
  {
    if h != [] {
      var n := |h| - 1;
      HitsCounted(h[..n], m, v);
      InsertionsNext(h, m, v, n);
      assert n !in Insertions(h[..n], m, v);
    }
  }

  /** The values of all keys of `t` that match, the keys preceded by `path`. */
  function HitsIn(t: IndexTrie, path: Str, m: Selector): multiset<Value>
    decreases t, CHILDMAX + 1
  {
    When(m(path + t.prefix), t.values) + KidHits(t, path + t.prefix, m, CHILDMAX)
  }

  /** ... on arcs below `c`. */
  function KidHits(t: IndexTrie, path: Str, m: Selector, c: int): multiset<Value>
    requires 0 <= c <= CHILDMAX
    decreases t, c
  {
    if c == 0 then multiset{}
    else
      KidHits(t, path, m, c - 1)
      + if c - 1 in t.kids then HitsIn(t.kids[c - 1], path + [c - 1], m) else multiset{}
  }

  // ----- insertion

  /** `u` is `t` with something else on arc `ch`. */
  ghost predicate DifferAt(t: IndexTrie, u: IndexTrie, ch: int) {
    forall d :: d != ch ==> (d in t.kids <==> d in u.kids) && (d in t.kids ==> t.kids[d] == u.kids[d])
  }

  lemma {:induction false} KidHitsBefore(t: IndexTrie, u: IndexTrie, path: Str, m: Selector, ch: int, c: int)
    requires DifferAt(t, u, ch) && 0 <= c <= ch < CHILDMAX
    ensures KidHits(u, path, m, c) == KidHits(t, path, m, c)
    decreases c
  {
    if c > 0 {
      KidHitsBefore(t, u, path, m, ch, c - 1);
    }
  }

  /** What one arc gains, the node gains. */
  lemma {:induction false} KidHitsUpdate(t: IndexTrie, u: IndexTrie, path: Str, m: Selector, ch: int, c: int,
                                         gain: multiset<Value>)
    requires DifferAt(t, u, ch) && 0 <= ch < c <= CHILDMAX && ch in u.kids
    requires HitsIn(u.kids[ch], path + [ch], m)
          == (if ch in t.kids then HitsIn(t.kids[ch], path + [ch], m) else multiset{}) + gain
    ensures KidHits(u, path, m, c) == KidHits(t, path, m, c) + gain
    decreases c
  {
    if c == ch + 1 {
      KidHitsBefore(t, u, path, m, ch, ch);
    } else {
      KidHitsUpdate(t, u, path, m, ch, c - 1, gain);
    }
  }

  lemma {:induction false} NoKidHits(t: IndexTrie, path: Str, m: Selector, c: int)
    requires t.kids == map[] && 0 <= c <= CHILDMAX
    ensures KidHits(t, path, m, c) == multiset{}
    decreases c
  {
    if c > 0 {
      NoKidHits(t, path, m, c - 1);
    }
  }

  lemma {:induction false} SameKidHits(a: IndexTrie, b: IndexTrie, path: Str, m: Selector, c: int)
    requires a.kids == b.kids && 0 <= c <= CHILDMAX
    ensures KidHits(a, path, m, c) == KidHits(b, path, m, c)
    decreases c
  {
    if c > 0 {
      SameKidHits(a, b, path, m, c - 1);
    }
  }

  lemma SplitHits(t: IndexTrie, j: nat, path: Str, m: Selector)
    requires j < |t.prefix| && Occupied(t)
    ensures WellFormed(Split(t, j)) && HitsIn(Split(t, j), path, m) == HitsIn(t, path, m)
  {
    var n: IndexTrie := Node(t.prefix[j + 1..], t.values, t.kids);
    OneKidHits(Split(t, j), n, t.prefix[j], path, m);
    LowerHits(t, n, path, path + t.prefix[..j] + [t.prefix[j]], m);
  }

  /** A node without values and with one child has the hits of the child. */
  lemma OneKidHits(s: IndexTrie, n: IndexTrie, ch: int, path: Str, m: Selector)
    requires 0 < ch < CHILDMAX && s.values == [] && s.kids == map[ch := n]
    ensures HitsIn(s, path, m) == HitsIn(n, path + s.prefix + [ch], m)
  {
    var at := path + s.prefix;
    var bare: IndexTrie := Node(s.prefix, [], map[]);
    NoKidHits(bare, at, m, CHILDMAX);
    KidHitsUpdate(bare, s, at, m, ch, CHILDMAX, HitsIn(n, at + [ch], m));
  }

  /** A shorter prefix behind a longer path. */
  lemma LowerHits(t: IndexTrie, n: IndexTrie, path: Str, at: Str, m: Selector)
    requires n.values == t.values && n.kids == t.kids && at + n.prefix == path + t.prefix
    ensures HitsIn(n, at, m) == HitsIn(t, path, m)
  {
    SameKidHits(n, t, path + t.prefix, m, CHILDMAX);
  }

  lemma AddValueHits(b: bool, vs: seq<Value>, v: Value)
    ensures When(b, AddValue(vs, v)) == When(b, vs) + When(b, [v])
  {
    AddValueMultiset(vs, v);
  }

  function InsertHereInto(t: IndexTrie, key: Str, v: Value): (r: IndexTrie)
    requires t.prefix <= key && IsAscii(key) && ValidValue(v)
    ensures r == InsertHere(t, key, v)
  {
    InsertHereWellFormed(t, key, v);
    InsertHere(t, key, v)
  }

  lemma InsertHereHits(t: IndexTrie, key: Str, v: Value, path: Str, m: Selector)
    requires t.prefix <= key && IsAscii(key) && ValidValue(v)
    requires |key| > |t.prefix| ==> key[|t.prefix|] !in t.kids
    ensures HitsIn(InsertHereInto(t, key, v), path, m) == HitsIn(t, path, m) + When(m(path + key), [v])
  {
    if |key| == |t.prefix| {
      assert t.prefix == key;
      ValueHereHits(t, InsertHereInto(t, key, v), v, path, m);
    } else {
      LeafHereHits(t, InsertHereInto(t, key, v), key, v, path, m, key[|t.prefix|]);
    }
  }

  lemma ValueHereHits(t: IndexTrie, u: IndexTrie, v: Value, path: Str, m: Selector)
    requires u == t.(values := AddValue(t.values, v))
    ensures HitsIn(u, path, m) == HitsIn(t, path, m) + When(m(path + t.prefix), [v])
  {
    AddValueHits(m(path + t.prefix), t.values, v);
    SameKidHits(u, t, path + t.prefix, m, CHILDMAX);
  }

  lemma LeafHereHits(t: IndexTrie, u: IndexTrie, key: Str, v: Value, path: Str, m: Selector, ch: int)
    requires t.prefix < key && ch == key[|t.prefix|] && ch !in t.kids
    requires u == t.(kids := t.kids[ch := Node(key[|t.prefix| + 1..], [v], map[])])
    ensures HitsIn(u, path, m) == HitsIn(t, path, m) + When(m(path + key), [v])
  {
    var at, leaf: IndexTrie := path + t.prefix, u.kids[ch];
    NoKidHits(leaf, at + [ch] + leaf.prefix, m, CHILDMAX);
    assert at + [ch] + leaf.prefix == path + key;
    KidHitsUpdate(t, u, at, m, ch, CHILDMAX, When(m(path + key), [v]));
    Regroup(When(m(at), t.values), KidHits(t, at, m, CHILDMAX), When(m(path + key), [v]));
  }

  lemma ReplaceKidHits(t: IndexTrie, u: IndexTrie, ch: int, path: Str, m: Selector, gain: multiset<Value>)
    requires u.prefix == t.prefix && u.values == t.values && DifferAt(t, u, ch)
    requires ch in t.kids && ch in u.kids
    requires HitsIn(u.kids[ch], path + t.prefix + [ch], m) == HitsIn(t.kids[ch], path + t.prefix + [ch], m) + gain
    ensures HitsIn(u, path, m) == HitsIn(t, path, m) + gain
  {
    KidHitsUpdate(t, u, path + t.prefix, m, ch, CHILDMAX, gain);
    Regroup(When(m(path + t.prefix), t.values), KidHits(t, path + t.prefix, m, CHILDMAX), gain);
  }

  lemma Regroup<T>(a: multiset<T>, b: multiset<T>, c: multiset<T>)
    ensures a + (b + c) == (a + b) + c
  {
  }

  lemma {:induction false} InsertDownHits(t: IndexTrie, key: Str, v: Value, path: Str, m: Selector, ch: int, below: Str)
    requires (t.prefix == [] || Occupied(t)) && IsAscii(key) && ValidValue(v)
    requires Common(t.prefix, key) == |t.prefix| && |t.prefix| < |key|
    requires ch == key[|t.prefix|] && ch in t.kids && below == key[|t.prefix|..][1..]
    requires IsAscii(below) && Occupied(t.kids[ch])
    requires HitsIn(InsertInto(t.kids[ch], below, v), path + t.prefix + [ch], m)
          == HitsIn(t.kids[ch], path + t.prefix + [ch], m) + When(m(path + key), [v])
    ensures HitsIn(InsertInto(t, key, v), path, m) == HitsIn(t, path, m) + When(m(path + key), [v])
  {
    ReplaceKidHits(t, InsertInto(t, key, v), ch, path, m, When(m(path + key), [v]));
  }

  function SplitInto(t: IndexTrie, j: nat): (r: IndexTrie)
    requires j < |t.prefix| && Occupied(t)
    ensures r == Split(t, j)
  {
    var lower: IndexTrie := Node(t.prefix[j + 1..], t.values, t.kids);
    assert Split(t, j).kids == map[t.prefix[j] := lower];
    Split(t, j)
  }

  lemma InsertSplitHits(t: IndexTrie, key: Str, v: Value, path: Str, m: Selector, s: IndexTrie)
    requires Occupied(t) && IsAscii(key) && ValidValue(v)
    requires Common(t.prefix, key) < |t.prefix| && s == SplitInto(t, Common(t.prefix, key))
    ensures HitsIn(InsertInto(t, key, v), path, m) == HitsIn(t, path, m) + When(m(path + key), [v])
  {
    SplitHits(t, Common(t.prefix, key), path, m);
    InsertHereHits(s, key, v, path, m);
    assert InsertInto(t, key, v) == InsertHereInto(s, key, v);
  }

  lemma InsertEndHits(t: IndexTrie, key: Str, v: Value, path: Str, m: Selector)
    requires (t.prefix == [] || Occupied(t)) && IsAscii(key) && ValidValue(v)
    requires t.prefix <= key && (|t.prefix| < |key| ==> key[|t.prefix|] !in t.kids)
    requires Common(t.prefix, key) == |t.prefix|
    ensures HitsIn(InsertInto(t, key, v), path, m) == HitsIn(t, path, m) + When(m(path + key), [v])
  {
    InsertHereHits(t, key, v, path, m);
    assert InsertInto(t, key, v) == InsertHereInto(t, key, v);
  }

  /** One insertion adds its value to exactly the queries its key matches. */
  lemma {:induction false} InsertHits(t: IndexTrie, key: Str, v: Value, path: Str, m: Selector)
    requires (t.prefix == [] || Occupied(t)) && IsAscii(key) && ValidValue(v)
    ensures HitsIn(InsertInto(t, key, v), path, m) == HitsIn(t, path, m) + When(m(path + key), [v])
    decreases |key|
  {
    var j := Common(t.prefix, key);
    if j == |t.prefix| && j < |key| && key[j] in t.kids {
      var ch, below := key[j], key[j..][1..];
      BelowArc(t.prefix, key, path, ch, below);
      InsertHits(t.kids[ch], below, v, path + t.prefix + [ch], m);
      InsertDownHits(t, key, v, path, m, ch, below);
    } else if j < |t.prefix| {
      InsertSplitHits(t, key, v, path, m, SplitInto(t, j));
    } else {
      InsertEndHits(t, key, v, path, m);
    }
  }

  /** The rest of a key behind a prefix and an arc. */
  lemma BelowArc(prefix: Str, key: Str, path: Str, ch: Byte, below: Str)
    requires prefix <= key && |prefix| < |key| && ch == key[|prefix|] && below == key[|prefix|..][1..] && IsAscii(key)
    ensures IsAscii(below) && |below| < |key| && path + prefix + [ch] + below == path + key
  {
    assert key == prefix + [ch] + below;
  }

  /** Brute force over the trie is brute force over the insertions. */
  lemma {:induction false} BuildHits(h: seq<Entry>, m: Selector)
    requires ValidEntries(h)
    ensures HitsIn(BuildIndex(h), [], m) == Hits(h, m)
  {
    if h == [] {
      NoKidHits(EMPTY, [] + EMPTY.prefix, m, CHILDMAX);
    } else {
      var front, last := h[..|h| - 1], h[|h| - 1];
      BuildHits(front, m);
      InsertHits(BuildIndex(front), last.key, last.value, [], m);
      assert [] + last.key == last.key;
    }
  }
}
