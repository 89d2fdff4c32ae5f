/** The listing of an index: every key with its values, keys in byte order. */
module Listing {
  import opened Text
  import opened PatriciaTrie

  /** The entries at and below `t` in walking order, keys preceded by `path`. */
  function Records(t: IndexTrie, path: Str): seq<Entry>
    decreases t, CHILDMAX + 1
  {
    OwnRecords(path + t.prefix, t.values) + KidRecords(t, path + t.prefix, CHILDMAX)
  }

  function OwnRecords(key: Str, vs: seq<Value>): (rs: seq<Entry>)
    ensures |rs| == |vs| && forall i :: 0 <= i < |rs| ==> rs[i] == Entry(key, vs[i])
  {
    seq(|vs|, i requires 0 <= i < |vs| => Entry(key, vs[i]))
  }

  /** ... on arcs below `c`, for a node whose key is `at`. */
  function KidRecords(t: IndexTrie, at: Str, c: int): seq<Entry>
    requires 0 <= c <= CHILDMAX
    decreases t, c
  {
    if c == 0 then [] else KidRecords(t, at, c - 1) + ArcRecords(t, at, c - 1)
  }

  function ArcRecords(t: IndexTrie, at: Str, c: Byte): seq<Entry>
    requires c < CHILDMAX
    decreases t, c, 0
  {
    if c in t.kids then Records(t.kids[c], at + [c]) else []
  }

  // ----- the text

  function Line(e: Entry): Str {
    e.key + [SPACE] + e.value.text + [NEWLINE]
  }

  function Render(rs: seq<Entry>): Str {
    FlatMap(Line, rs)
  }

  // ----- every key with exactly its values

  lemma {:induction false} ValuesOfAppend(a: seq<Entry>, b: seq<Entry>, k: Str)
    ensures ValuesOf(a + b, k) == ValuesOf(a, k) + ValuesOf(b, k)
    decreases |b|
  {
    if b == [] {
      assert a + b == a;
    } else {
      assert (a + b)[..|a + b| - 1] == a + b[..|b| - 1];
      ValuesOfAppend(a, b[..|b| - 1], k);
    }
  }

  lemma {:induction false} ValuesOfOwn(key: Str, vs: seq<Value>, k: Str)
    ensures ValuesOf(OwnRecords(key, vs), k) == if k == key then vs else []
    decreases |vs|
  {
    if vs != [] {
      var front := vs[..|vs| - 1];
      assert OwnRecords(key, vs)[..|vs| - 1] == OwnRecords(key, front);
      ValuesOfOwn(key, front, k);
      assert vs == front + [vs[|vs| - 1]];
    }
  }

  /** What the subtries below arcs less than `c` hold for key `k`. */
  function Below(t: IndexTrie, at: Str, c: int, k: Str): seq<Value> {
    if at < k && k[|at|] < c && k[|at|] in t.kids then Lookup(t.kids[k[|at|]], k[|at| + 1..]) else []
  }

  function Under(t: IndexTrie, path: Str, k: Str): seq<Value> {
    if path <= k then Lookup(t, k[|path|..]) else []
  }

  lemma UnderParts(t: IndexTrie, path: Str, k: Str)
    ensures Under(t, path, k)
         == (if k == path + t.prefix then t.values else []) + Below(t, path + t.prefix, CHILDMAX, k)
  {
    var at := path + t.prefix;
    if path <= k {
      var rest := k[|path|..];
      assert k == path + rest;
      assert at <= k <==> t.prefix <= rest by {
        if at <= k {
          assert t.prefix == at[|path|..] == k[..|at|][|path|..] == rest[..|t.prefix|];
        }
        if t.prefix <= rest {
          assert at == k[..|at|];
        }
      }
      if at < k {
        assert rest[|t.prefix|..][1..] == k[|at| + 1..];
      }
    } else {
      assert at <= k ==> path <= k;
    }
  }

  lemma BelowNext(t: IndexTrie, at: Str, c: Byte, k: Str)
    requires c < CHILDMAX && c in t.kids
    ensures Below(t, at, c + 1, k) == Below(t, at, c, k) + Under(t.kids[c], at + [c], k)
  {
    if at < k && k[|at|] == c {
      assert at + [c] == k[..|at| + 1];
    }
  }

  /** The listing is the multimap: under each key exactly the values a lookup finds, in their stored order. */
  lemma {:induction false} RecordsLookup(t: IndexTrie, path: Str, k: Str)
    ensures ValuesOf(Records(t, path), k) == Under(t, path, k)
    decreases t, CHILDMAX + 1
  {
    var at := path + t.prefix;
    ValuesOfAppend(OwnRecords(at, t.values), KidRecords(t, at, CHILDMAX), k);
    ValuesOfOwn(at, t.values, k);
    KidRecordsLookup(t, at, CHILDMAX, k);
    UnderParts(t, path, k);
  }

  lemma {:induction false} KidRecordsLookup(t: IndexTrie, at: Str, c: int, k: Str)
    requires 0 <= c <= CHILDMAX
    ensures ValuesOf(KidRecords(t, at, c), k) == Below(t, at, c, k)
    decreases t, c
  {
    if c > 0 {
      KidRecordsLookup(t, at, c - 1, k);
      ValuesOfAppend(KidRecords(t, at, c - 1), ArcRecords(t, at, c - 1), k);
      ArcLookup(t, at, c - 1, k);
    }
  }

  lemma {:induction false} ArcLookup(t: IndexTrie, at: Str, c: Byte, k: Str)
    requires c < CHILDMAX
    ensures Below(t, at, c + 1, k) == Below(t, at, c, k) + ValuesOf(ArcRecords(t, at, c), k)
    decreases t, c, 0
  {
    if c in t.kids {
      RecordsLookup(t.kids[c], at + [c], k);
      BelowNext(t, at, c, k);
    }
  }

  // ----- in byte order

  predicate Before(a: Str, b: Str) {
    a == b || Less(a, b)
  }

  /** Keys in byte order. */
  ghost predicate Ordered(rs: seq<Entry>) {
    forall i, j :: 0 <= i < j < |rs| ==> Before(rs[i].key, rs[j].key)
  }

  /** All keys of `a` come before all keys of `b`. */
  ghost predicate AllBefore(a: seq<Entry>, b: seq<Entry>) {
    forall i, j :: 0 <= i < |a| && 0 <= j < |b| ==> Before(a[i].key, b[j].key)
  }

  lemma OrderedAppend(a: seq<Entry>, b: seq<Entry>)
    requires Ordered(a) && Ordered(b) && AllBefore(a, b)
    ensures Ordered(a + b)
  {
  }

  /** All keys continue `at` with a character below `c`. */
  ghost predicate Continue(rs: seq<Entry>, at: Str, c: int) {
    forall i :: 0 <= i < |rs| ==> at < rs[i].key && rs[i].key[|at|] < c
  }

  ghost predicate AllUnder(rs: seq<Entry>, path: Str) {
    forall i :: 0 <= i < |rs| ==> path <= rs[i].key
  }

  lemma SmallerArc(at: Str, a: Str, b: Str, c: int)
    requires at < a && at < b && a[|at|] < c <= b[|at|]
    ensures Less(a, b)
  {
    LessAppend(at, a[|at|..], b[|at|..]);
    assert a == at + a[|at|..] && b == at + b[|at|..];
  }

  lemma SelfFirst(at: Str, b: Str)
    requires at < b
    ensures Less(at, b)
  {
    LessAppend(at, [], b[|at|..]);
    assert at == at + [] && b == at + b[|at|..];
  }

  lemma KidBeforeNext(a: seq<Entry>, b: seq<Entry>, at: Str, c: Byte)
    requires Continue(a, at, c) && AllUnder(b, at + [c])
    ensures AllBefore(a, b) && Continue(a + b, at, c + 1)
  {
    forall j | 0 <= j < |b| ensures at < b[j].key && b[j].key[|at|] == c {
      assert at == (at + [c])[..|at|];
    }
    forall i, j | 0 <= i < |a| && 0 <= j < |b| ensures Before(a[i].key, b[j].key) {
      SmallerArc(at, a[i].key, b[j].key, c);
    }
  }

  lemma {:induction false} RecordsOrdered(t: IndexTrie, path: Str)
    ensures Ordered(Records(t, path)) && AllUnder(Records(t, path), path)
    decreases t, CHILDMAX + 1
  {
    var at := path + t.prefix;
    var own, kids := OwnRecords(at, t.values), KidRecords(t, at, CHILDMAX);
    KidRecordsOrdered(t, at, CHILDMAX);
    forall i, j | 0 <= i < |own| && 0 <= j < |kids| ensures Before(own[i].key, kids[j].key) {
      SelfFirst(at, kids[j].key);
    }
    OrderedAppend(own, kids);
    assert AllUnder(own + kids, at);
  }

  lemma {:induction false} KidRecordsOrdered(t: IndexTrie, at: Str, c: int)
    requires 0 <= c <= CHILDMAX
    ensures Ordered(KidRecords(t, at, c)) && Continue(KidRecords(t, at, c), at, c)
    decreases t, c
  {
    if c > 0 {
      KidRecordsOrdered(t, at, c - 1);
      if c - 1 in t.kids {
        RecordsOrdered(t.kids[c - 1], at + [c - 1]);
      }
      KidBeforeNext(KidRecords(t, at, c - 1), ArcRecords(t, at, c - 1), at, c - 1);
      OrderedAppend(KidRecords(t, at, c - 1), ArcRecords(t, at, c - 1));
    }
  }

  /** The listing of an index built by insertions: sorted by key, with each key's insertions by priority. */
  lemma DumpIsSortedListing(h: seq<Entry>, k: Str)
    requires ValidEntries(h)
    ensures Ordered(Records(BuildIndex(h), []))
    ensures ValuesOf(Records(BuildIndex(h), []), k) == AddAll([], ValuesOf(h, k))
  {
    RecordsOrdered(BuildIndex(h), []);
    RecordsLookup(BuildIndex(h), [], k);
    assert k[0..] == k;
    BuildLookup(h, k);
  }

  /** Two orderly listings of the same multimap are the same list. */
  lemma {:induction false} OrderedUnique(a: seq<Entry>, b: seq<Entry>)
    requires Ordered(a) && Ordered(b) && forall k :: ValuesOf(a, k) == ValuesOf(b, k)
    ensures a == b
    decreases |a|
  {
    if a == [] || b == [] {
      LastHasValues(a);
      LastHasValues(b);
    } else {
      var x, y := a[|a| - 1], b[|b| - 1];
      LastIsGreatest(a, y.key);
      LastIsGreatest(b, x.key);
      LessIrreflexive(x.key);
      assert x.key == y.key by {
        if x.key != y.key {
          LessTransitive(x.key, y.key, x.key);
        }
      }
      var fa, fb := a[..|a| - 1], b[..|b| - 1];
      var va, vb := ValuesOf(a, x.key), ValuesOf(b, x.key);
      assert va[|va| - 1] == x.value && vb[|vb| - 1] == y.value;
      forall k ensures ValuesOf(fa, k) == ValuesOf(fb, k) {
        if k == x.key {
          assert ValuesOf(fa, k) == va[..|va| - 1] && ValuesOf(fb, k) == vb[..|vb| - 1];
        } else {
          assert ValuesOf(fa, k) == ValuesOf(a, k) && ValuesOf(fb, k) == ValuesOf(b, k);
        }
      }
      OrderedUnique(fa, fb);
      assert a == fa + [x] && b == fb + [y];
    }
  }

  lemma LastHasValues(a: seq<Entry>)
    ensures a != [] ==> ValuesOf(a, a[|a| - 1].key) != []
  {
  }

  lemma LastIsGreatest(a: seq<Entry>, k: Str)
    requires Ordered(a) && a != [] && ValuesOf(a, k) != []
    ensures Before(k, a[|a| - 1].key)
  {
    ValuesOfMember(a, k);
    var v := ValuesOf(a, k)[0];
    assert v in ValuesOf(a, k);
    var i :| 0 <= i < |a| && a[i] == Entry(k, v);
  }
}
