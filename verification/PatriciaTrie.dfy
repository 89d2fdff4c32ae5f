/**
 The module index as a value: a Patricia trie whose nodes carry the values of one key,
 and the multimap from keys to value lists that it stands for.
 */
module PatriciaTrie {
  import opened Text

  const CHILDMAX := 128

  /** One value of a key; lists of values are kept in ascending priority. */
  datatype Value = Value(text: Str, priority: int)

  /** `kids` maps an arc character to the child below it; the rest of the arc label is the child's prefix. */
  datatype Trie = Node(prefix: Str, values: seq<Value>, kids: map<int, Trie>)

  const EMPTY := Node([], [], map[])

  /** The values stored under `key`, in list order; empty when the key was never inserted. */
  function Lookup(t: Trie, key: Str): seq<Value>
    decreases |key|
  {
    if !(t.prefix <= key) then []
    else
      var rest := key[|t.prefix|..];
      if rest == [] then t.values
      else if rest[0] in t.kids then Lookup(t.kids[rest[0]], rest[1..])
      else []
  }

  /** The invariant of every trie that insertions build. */
  predicate WellFormed(t: Trie) {
    && IsAscii(t.prefix)
    && ValidValues(t.values)
    && forall c :: c in t.kids ==>
        && 0 < c < CHILDMAX
        && Occupied(t.kids[c])
        && WellFormed(t.kids[c])
  }

  type IndexTrie = t: Trie | WellFormed(t) witness EMPTY

  predicate ValidValue(v: Value) {
    IsCString(v.text) && 0 <= v.priority < 0x1_0000_0000
  }

  predicate ValidValues(vs: seq<Value>) {
    Sorted(vs) && forall i :: 0 <= i < |vs| ==> ValidValue(vs[i])
  }

  predicate Sorted(vs: seq<Value>) {
    forall i, j :: 0 <= i < j < |vs| ==> vs[i].priority <= vs[j].priority
  }

  // ----- value lists

  /** The value lists' insertion: in front of the first value whose priority is not smaller. */
  function AddValue(vs: seq<Value>, v: Value): seq<Value> {
    if vs != [] && vs[0].priority < v.priority then [vs[0]] + AddValue(vs[1..], v)
    else [v] + vs
  }

  lemma {:induction false} AddValueMultiset(vs: seq<Value>, v: Value)
    ensures multiset(AddValue(vs, v)) == multiset(vs) + multiset{v}
  {
    if vs != [] && vs[0].priority < v.priority {
      AddValueMultiset(vs[1..], v);
      assert vs == [vs[0]] + vs[1..];
    }
  }

  lemma {:induction false} AddValueAt(vs: seq<Value>, v: Value, k: nat)
    requires k <= |vs|
    requires forall i :: 0 <= i < k ==> vs[i].priority < v.priority
    requires k < |vs| ==> v.priority <= vs[k].priority
    ensures AddValue(vs, v) == vs[..k] + [v] + vs[k..]
  {
    if k > 0 {
      AddValueAt(vs[1..], v, k - 1);
      assert vs[..k] == [vs[0]] + vs[1..][..k - 1];
    }
  }

  /** Exactly the old elements and the new one. */
  lemma AddValueElements(vs: seq<Value>, v: Value)
    ensures forall x :: x in AddValue(vs, v) <==> x == v || x in vs
  {
    AddValueMultiset(vs, v);
    forall x ensures x in AddValue(vs, v) <==> x == v || x in vs {
      assert x in AddValue(vs, v) <==> x in multiset(AddValue(vs, v));
      assert x in vs <==> x in multiset(vs);
    }
  }

  lemma {:induction false} AddValueSorted(vs: seq<Value>, v: Value)
    requires Sorted(vs)
    ensures Sorted(AddValue(vs, v))
  {
    if vs != [] && vs[0].priority < v.priority {
      AddValueSorted(vs[1..], v);
      AddValueElements(vs[1..], v);
      var r := AddValue(vs[1..], v);
      forall j | 0 <= j < |r| ensures vs[0].priority <= r[j].priority {
        assert r[j] in r;
      }
    }
  }

  lemma AddValueValid(vs: seq<Value>, v: Value)
    requires ValidValues(vs) && ValidValue(v)
    ensures ValidValues(AddValue(vs, v))
  {
    AddValueSorted(vs, v);
    AddValueElements(vs, v);
    var r := AddValue(vs, v);
    forall j | 0 <= j < |r| ensures ValidValue(r[j]) {
      assert r[j] in r;
    }
  }

  /** Values added one after the other to a list. */
  function AddAll(vs: seq<Value>, added: seq<Value>): seq<Value>
    decreases |added|
  {
    if added == [] then vs else AddAll(AddValue(vs, added[0]), added[1..])
  }

  lemma {:induction false} AddAllMultiset(vs: seq<Value>, added: seq<Value>)
    ensures multiset(AddAll(vs, added)) == multiset(vs) + multiset(added)
    decreases |added|
  {
    if added != [] {
      AddValueMultiset(vs, added[0]);
      AddAllMultiset(AddValue(vs, added[0]), added[1..]);
      assert added == [added[0]] + added[1..];
    }
  }

  lemma {:induction false} AddAllAppend(vs: seq<Value>, a: seq<Value>, b: seq<Value>)
    ensures AddAll(vs, a + b) == AddAll(AddAll(vs, a), b)
    decreases |a|
  {
    if a == [] {
      assert a + b == b;
    } else {
      AddAllAppend(AddValue(vs, a[0]), a[1..], b);
      assert (a + b)[1..] == a[1..] + b;
    }
  }

  lemma {:induction false} AddAllSorted(vs: seq<Value>, added: seq<Value>)
    requires Sorted(vs)
    ensures Sorted(AddAll(vs, added))
    decreases |added|
  {
    if added != [] {
      AddValueSorted(vs, added[0]);
      AddAllSorted(AddValue(vs, added[0]), added[1..]);
    }
  }

  /**
   The head of a list built by insertions is a value of least priority, and of those the one inserted last.
   `k` is its place in the insertion sequence.
   */
  lemma {:induction false} HeadIsLatestOfLeast(added: seq<Value>) returns (k: nat)
    requires added != []
    ensures k < |added| && AddAll([], added) != [] && AddAll([], added)[0] == added[k]
    ensures forall i :: 0 <= i < k ==> added[k].priority <= added[i].priority
    ensures forall i :: k < i < |added| ==> added[k].priority < added[i].priority
    decreases |added|
  {
    var front, last := added[..|added| - 1], added[|added| - 1];
    assert added == front + [last];
    AddAllAppend([], front, [last]);
    var before := AddAll([], front);
    assert AddAll([], added) == AddValue(before, last);
    if front == [] {
      k := 0;
    } else {
      k := HeadIsLatestOfLeast(front);
      if last.priority <= before[0].priority {
        k := |added| - 1;
      }
    }
  }

  // ----- insertion

  /** Length of the longest common prefix. */
  function Common(a: Str, b: Str): (n: nat)
    ensures n <= |a| && n <= |b| && a[..n] == b[..n]
    ensures n < |a| && n < |b| ==> a[n] != b[n]
  {
    if a != [] && b != [] && a[0] == b[0] then
      var n := Common(a[1..], b[1..]);
      assert a[..n + 1] == [a[0]] + a[1..][..n] && b[..n + 1] == [b[0]] + b[1..][..n];
      n + 1
    else 0
  }

  lemma CommonUnique(a: Str, b: Str, n: nat)
    requires n <= |a| && n <= |b| && a[..n] == b[..n]
    requires n < |a| && n < |b| ==> a[n] != b[n]
    ensures n == Common(a, b)
  {
    AgreeUpTo(a, b, n);
    AgreeUpTo(a, b, Common(a, b));
  }

  lemma AgreeUpTo(a: Str, b: Str, n: nat)
    requires n <= |a| && n <= |b| && a[..n] == b[..n]
    ensures forall i :: 0 <= i < n ==> a[i] == b[i]
  {
    forall i | 0 <= i < n ensures a[i] == b[i] {
      assert a[i] == a[..n][i] && b[i] == b[..n][i];
    }
  }

  /** The trie after one insertion: the node is split where its prefix and the key part ways. */
  function Insert(t: Trie, key: Str, v: Value): Trie
    decreases |key|
  {
    var j := Common(t.prefix, key);
    if j < |t.prefix| then InsertHere(Split(t, j), key, v)
    else
      var rest := key[j..];
      if rest != [] && rest[0] in t.kids then
        t.(kids := t.kids[rest[0] := Insert(t.kids[rest[0]], rest[1..], v)])
      else InsertHere(t, key, v)
  }

  /** `t` with its prefix cut at `j`; what was at `t` moves one level down. */
  function Split(t: Trie, j: nat): Trie
    requires j < |t.prefix|
  {
    Node(t.prefix[..j], [], map[t.prefix[j] := Node(t.prefix[j + 1..], t.values, t.kids)])
  }

  /** Insertion that ends at `t`: a value of its own, or a new leaf. */
  function InsertHere(t: Trie, key: Str, v: Value): Trie
    requires t.prefix <= key
  {
    if |key| == |t.prefix| then t.(values := AddValue(t.values, v))
    else
      var c := key[|t.prefix|];
      t.(kids := t.kids[c := Node(key[|t.prefix| + 1..], [v], map[])])
  }

  /** Splitting a node does not change what the trie stands for. */
  lemma SplitLookup(t: Trie, j: nat, q: Str)
    requires j < |t.prefix|
    ensures Lookup(Split(t, j), q) == Lookup(t, q)
  {
    var n := Node(t.prefix[j + 1..], t.values, t.kids);
    assert t.prefix == t.prefix[..j] + [t.prefix[j]] + n.prefix;
    if t.prefix[..j] <= q && |q| > j && q[j] == t.prefix[j] {
      var below := q[j..][1..];
      assert q == t.prefix[..j] + [q[j]] + below;
      assert t.prefix <= q <==> n.prefix <= below;
      if n.prefix <= below {
        assert below[|n.prefix|..] == q[|t.prefix|..];
      }
    }
  }

  lemma InsertHereLookup(t: Trie, key: Str, v: Value, q: Str)
    requires t.prefix <= key
    requires |key| > |t.prefix| ==> key[|t.prefix|] !in t.kids
    ensures Lookup(InsertHere(t, key, v), q)
         == if q == key then AddValue(Lookup(t, key), v) else Lookup(t, q)
  {
    var r := InsertHere(t, key, v);
    var n := |t.prefix|;
    assert key == t.prefix + key[n..];
    if t.prefix <= q {
      assert q == t.prefix + q[n..];
      if |key| > n && |q| > n && q[n] == key[n] {
        assert q[n..][1..] == q[n + 1..] && key[n..][1..] == key[n + 1..];
        var leaf := r.kids[key[n]];
        assert q == t.prefix + [q[n]] + q[n + 1..] && key == t.prefix + [key[n]] + key[n + 1..];
        if leaf.prefix <= q[n + 1..] && |q[n + 1..]| == |leaf.prefix| {
          assert q == key;
        }
      }
    }
  }

  /** One insertion adds one value to one key and leaves every other key alone. */
  lemma {:induction false} InsertLookup(t: Trie, key: Str, v: Value, q: Str)
    ensures Lookup(Insert(t, key, v), q)
         == if q == key then AddValue(Lookup(t, key), v) else Lookup(t, q)
    decreases |key|
  {
    var j := Common(t.prefix, key);
    if j < |t.prefix| {
      SplitLookup(t, j, q);
      SplitLookup(t, j, key);
      InsertHereLookup(Split(t, j), key, v, q);
    } else {
      var rest := key[j..];
      if rest != [] && rest[0] in t.kids {
        assert key == t.prefix + [rest[0]] + rest[1..];
        if t.prefix <= q && |q| > j && q[j] == rest[0] {
          assert q == t.prefix + [q[j]] + q[j..][1..];
          InsertLookup(t.kids[rest[0]], rest[1..], v, q[j..][1..]);
        }
      } else {
        InsertHereLookup(t, key, v, q);
      }
    }
  }

  /** Some key passes through or ends at this node. */
  predicate Occupied(t: Trie) {
    t.values != [] || t.kids != map[]
  }

  lemma {:induction false} InsertWellFormed(t: Trie, key: Str, v: Value)
    requires WellFormed(t) && (t.prefix == [] || Occupied(t))
    requires IsAscii(key) && ValidValue(v)
    ensures WellFormed(Insert(t, key, v)) && Occupied(Insert(t, key, v))
    decreases |key|
  {
    var j := Common(t.prefix, key);
    if j < |t.prefix| {
      SplitWellFormed(t, j);
      InsertHereWellFormed(Split(t, j), key, v);
    } else {
      var rest := key[j..];
      if rest != [] && rest[0] in t.kids {
        TailAscii(key, j);
        InsertWellFormed(t.kids[rest[0]], rest[1..], v);
        KidWellFormed(t, rest[0], Insert(t.kids[rest[0]], rest[1..], v));
      } else {
        InsertHereWellFormed(t, key, v);
      }
    }
  }

  lemma SplitWellFormed(t: Trie, j: nat)
    requires WellFormed(t) && Occupied(t) && j < |t.prefix|
    ensures WellFormed(Split(t, j))
  {
    var n := Node(t.prefix[j + 1..], t.values, t.kids);
    assert WellFormed(n) && Occupied(n);
  }

  lemma TailAscii(key: Str, j: nat)
    requires IsAscii(key) && j < |key|
    ensures IsAscii(key[j..][1..])
  {
  }

  /** A child replaced by a well-formed one. */
  lemma KidWellFormed(t: Trie, c: int, kid: Trie)
    requires WellFormed(t) && c in t.kids && WellFormed(kid) && Occupied(kid)
    ensures WellFormed(t.(kids := t.kids[c := kid])) && Occupied(t.(kids := t.kids[c := kid]))
  {
    assert c in t.kids[c := kid];
  }

  lemma InsertHereWellFormed(t: Trie, key: Str, v: Value)
    requires WellFormed(t) && t.prefix <= key && IsAscii(key) && ValidValue(v)
    ensures WellFormed(InsertHere(t, key, v)) && Occupied(InsertHere(t, key, v))
  {
    if |key| == |t.prefix| {
      AddValueValid(t.values, v);
    } else {
      assert key[|t.prefix|] in InsertHere(t, key, v).kids;
    }
  }

  // ----- runs of insertions

  datatype Entry = Entry(key: Str, value: Value)

  predicate ValidEntries(h: seq<Entry>) {
    forall i :: 0 <= i < |h| ==> IsAscii(h[i].key) && ValidValue(h[i].value)
  }

  /** The trie after a run of insertions into an empty one. */
  function Build(h: seq<Entry>): Trie {
    if h == [] then EMPTY
    else Insert(Build(h[..|h| - 1]), h[|h| - 1].key, h[|h| - 1].value)
  }

  /** The values inserted under `key`, in insertion order. */
  function ValuesOf(h: seq<Entry>, key: Str): seq<Value> {
    if h == [] then []
    else
      ValuesOf(h[..|h| - 1], key) + if h[|h| - 1].key == key then [h[|h| - 1].value] else []
  }

  /** The trie is the multimap: each key holds exactly the values inserted under it, whatever was split on the way. */
  lemma {:induction false} BuildLookup(h: seq<Entry>, key: Str)
    ensures Lookup(Build(h), key) == AddAll([], ValuesOf(h, key))
  {
    if h != [] {
      var front, last := h[..|h| - 1], h[|h| - 1];
      BuildLookup(front, key);
      InsertLookup(Build(front), last.key, last.value, key);
      if last.key == key {
        AddAllAppend([], ValuesOf(front, key), [last.value]);
      } else {
        assert ValuesOf(front, key) + [] == ValuesOf(front, key);
      }
    }
  }

  lemma {:induction false} BuildWellFormed(h: seq<Entry>)
    requires ValidEntries(h)
    ensures WellFormed(Build(h)) && Build(h).prefix == []
    ensures h != [] ==> Occupied(Build(h))
  {
    if h != [] {
      BuildWellFormed(h[..|h| - 1]);
      InsertWellFormed(Build(h[..|h| - 1]), h[|h| - 1].key, h[|h| - 1].value);
    }
  }

  lemma {:induction false} ValuesOfMember(h: seq<Entry>, key: Str)
    ensures forall v :: v in ValuesOf(h, key) <==> Entry(key, v) in h
  {
    if h != [] {
      ValuesOfMember(h[..|h| - 1], key);
      assert h == h[..|h| - 1] + [h[|h| - 1]];
    }
  }

  /** Insert, as an operation on tries that satisfy the invariant. */
  function InsertInto(t: IndexTrie, key: Str, v: Value): (r: IndexTrie)
    requires (t.prefix == [] || Occupied(t)) && IsAscii(key) && ValidValue(v)
    ensures r == Insert(t, key, v) && Occupied(r)
  {
    InsertWellFormed(t, key, v);
    Insert(t, key, v)
  }

  /** Build, as a trie that satisfies the invariant. */
  function BuildIndex(h: seq<Entry>): (r: IndexTrie)
    requires ValidEntries(h)
    ensures r == Build(h) && r.prefix == []
    ensures r == EMPTY <==> h == []
  {
    BuildWellFormed(h);
    Build(h)
  }
}
