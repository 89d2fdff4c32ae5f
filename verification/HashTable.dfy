/** The hash table: buckets of entries sorted by key, grown and shrunk in steps, standing for a map. */
module HashTable {
  import opened Text

  datatype Pair<V> = Pair(key: Str, value: V)

  /** What a bucket holds: its used entries, and how many there is room for; no room means never allocated. */
  datatype Bucket<V> = Bucket(entries: seq<Pair<V>>, total: nat)

  predicate SortedKeys<V>(es: seq<Pair<V>>) {
    forall i, j :: 0 <= i < j < |es| ==> Less(es[i].key, es[j].key)
  }

  /** Strictly sorted, with room to spare once allocated. */
  predicate ValidBucket<V>(b: Bucket<V>) {
    SortedKeys(b.entries) && (if b.total == 0 then b.entries == [] else |b.entries| < b.total)
  }

  // ----- one bucket

  /** The position of `key`, or of the first greater one. */
  predicate IsPlace<V>(es: seq<Pair<V>>, key: Str, i: nat) {
    && i <= |es|
    && (forall k :: 0 <= k < i ==> Less(es[k].key, key))
    && (i < |es| ==> es[i].key == key || Less(key, es[i].key))
  }

  /** The linear scan of the insertions. */
  method FindPlace<V>(es: seq<Pair<V>>, key: Str) returns (i: nat)
    requires SortedKeys(es)
    ensures IsPlace(es, key, i)
  {
    i := 0;
    while i < |es| && es[i].key != key && !Less(key, es[i].key)
      invariant i <= |es| && forall k :: 0 <= k < i ==> Less(es[k].key, key)
    {
      LessTotal(es[i].key, key);
      i := i + 1;
    }
  }

  /** bsearch */
  method Search<V>(es: seq<Pair<V>>, key: Str) returns (r: Option<nat>)
    requires SortedKeys(es)
    ensures r.Some? ==> r.value < |es| && es[r.value].key == key
    ensures r.None? ==> forall k :: 0 <= k < |es| ==> es[k].key != key
  {
    var lo, hi := 0, |es|;
    while lo < hi
      invariant 0 <= lo <= hi <= |es|
      invariant forall k :: 0 <= k < lo || hi <= k < |es| ==> es[k].key != key
    {
      var mid := (lo + hi) / 2;
      if es[mid].key == key {
        return Some(mid);
      }
      LessTotal(es[mid].key, key);
      if Less(es[mid].key, key) {
        LessThanAll(es, key, mid);
        lo := mid + 1;
      } else {
        GreaterThanAll(es, key, mid);
        hi := mid;
      }
    }
    r := None;
  }

  lemma LessThanAll<V>(es: seq<Pair<V>>, key: Str, mid: nat)
    requires SortedKeys(es) && mid < |es| && Less(es[mid].key, key)
    ensures forall k :: 0 <= k <= mid ==> es[k].key != key
  {
    forall k | 0 <= k <= mid ensures es[k].key != key {
      if k < mid {
        LessTransitive(es[k].key, es[mid].key, key);
      }
      LessIrreflexive(key);
    }
  }

  lemma GreaterThanAll<V>(es: seq<Pair<V>>, key: Str, mid: nat)
    requires SortedKeys(es) && mid < |es| && Less(key, es[mid].key)
    ensures forall k :: mid <= k < |es| ==> es[k].key != key
  {
    forall k | mid <= k < |es| ensures es[k].key != key {
      if k > mid {
        LessTransitive(key, es[mid].key, es[k].key);
      }
      LessIrreflexive(key);
    }
  }

  /** A new entry in its place; the later ones move up. */
  function Inserted<V>(es: seq<Pair<V>>, i: nat, e: Pair<V>): seq<Pair<V>>
    requires i <= |es|
  {
    es[..i] + [e] + es[i..]
  }

  lemma InsertedSorted<V>(es: seq<Pair<V>>, i: nat, e: Pair<V>)
    requires SortedKeys(es) && IsPlace(es, e.key, i) && (i < |es| ==> es[i].key != e.key)
    ensures SortedKeys(Inserted(es, i, e))
  {
    var r := Inserted(es, i, e);
    forall k | i <= k < |es| ensures Less(e.key, es[k].key) {
      if k > i {
        LessTransitive(e.key, es[i].key, es[k].key);
      }
    }
    forall a, b | 0 <= a < b < |r| ensures Less(r[a].key, r[b].key) {
      assert r[a] == if a < i then es[a] else if a == i then e else es[a - 1];
      assert r[b] == if b < i then es[b] else if b == i then e else es[b - 1];
      if a < i < b {
        assert Less(es[a].key, es[b - 1].key);
      }
    }
  }

  lemma ReplacedSorted<V>(es: seq<Pair<V>>, i: nat, e: Pair<V>)
    requires SortedKeys(es) && i < |es| && es[i].key == e.key
    ensures SortedKeys(es[i := e])
  {
    var r := es[i := e];
    forall a, b | 0 <= a < b < |r| ensures Less(r[a].key, r[b].key) {
      assert Less(es[a].key, es[b].key);
    }
  }

  function Removed<V>(es: seq<Pair<V>>, i: nat): seq<Pair<V>>
    requires i < |es|
  {
    es[..i] + es[i + 1..]
  }

  lemma RemovedSorted<V>(es: seq<Pair<V>>, i: nat)
    requires SortedKeys(es) && i < |es|
    ensures SortedKeys(Removed(es, i))
  {
    var r := Removed(es, i);
    forall a, b | 0 <= a < b < |r| ensures Less(r[a].key, r[b].key) {
      var a', b' := if a < i then a else a + 1, if b < i then b else b + 1;
      assert r[a] == es[a'] && r[b] == es[b'];
      assert Less(es[a'].key, es[b'].key);
    }
  }

  // ----- a bucket as a map

  function KeySet<V>(es: seq<Pair<V>>): set<Str> {
    set i | 0 <= i < |es| :: es[i].key
  }

  lemma KeysOnce<V>(es: seq<Pair<V>>, i: nat, j: nat)
    requires SortedKeys(es) && i < |es| && j < |es| && es[i].key == es[j].key
    ensures i == j
  {
    LessIrreflexive(es[i].key);
  }

  /** The bucket agrees with the map on every key that belongs to it. */
  ghost predicate Agrees<V>(es: seq<Pair<V>>, m: map<Str, V>, belongs: iset<Str>) {
    && (forall i :: 0 <= i < |es| ==> es[i].key in belongs && es[i].key in m && m[es[i].key] == es[i].value)
    && (forall k :: k in m && k in belongs ==> k in KeySet(es))
  }

  lemma InsertedAgrees<V>(es: seq<Pair<V>>, i: nat, e: Pair<V>, m: map<Str, V>, belongs: iset<Str>)
    requires i <= |es| && Agrees(es, m, belongs) && e.key in belongs && e.key !in KeySet(es)
    ensures Agrees(Inserted(es, i, e), m[e.key := e.value], belongs)
  {
    var r := Inserted(es, i, e);
    forall a | 0 <= a < |r| ensures r[a].key in belongs && (r[a].key == e.key ==> r[a] == e) {
      assert r[a] == if a < i then es[a] else if a == i then e else es[a - 1];
      assert a < i ==> es[a].key in KeySet(es);
      assert a > i ==> es[a - 1].key in KeySet(es);
    }
    forall k | k in m[e.key := e.value] && k in belongs ensures k in KeySet(r) {
      if k == e.key {
        assert r[i] == e;
      } else {
        var a :| 0 <= a < |es| && es[a].key == k;
        assert r[if a < i then a else a + 1] == es[a];
      }
    }
  }

  lemma ReplacedAgrees<V>(es: seq<Pair<V>>, i: nat, e: Pair<V>, m: map<Str, V>, belongs: iset<Str>)
    requires SortedKeys(es) && i < |es| && es[i].key == e.key && Agrees(es, m, belongs)
    ensures Agrees(es[i := e], m[e.key := e.value], belongs)
  {
    var r := es[i := e];
    forall a | 0 <= a < |r| ensures r[a].key == e.key ==> a == i {
      if r[a].key == e.key {
        KeysOnce(es, a, i);
      }
    }
    forall k | k in m[e.key := e.value] && k in belongs ensures k in KeySet(r) {
      assert k in KeySet(es) by {
        assert es[i].key in KeySet(es);
      }
      var a :| 0 <= a < |es| && es[a].key == k;
      assert r[a].key == k;
    }
  }

  lemma RemovedAgrees<V>(es: seq<Pair<V>>, i: nat, m: map<Str, V>, belongs: iset<Str>)
    requires SortedKeys(es) && i < |es| && Agrees(es, m, belongs)
    ensures Agrees(Removed(es, i), m - {es[i].key}, belongs)
  {
    var r := Removed(es, i);
    forall a | 0 <= a < |r| ensures r[a].key != es[i].key {
      var a' := if a < i then a else a + 1;
      assert r[a] == es[a'];
      if es[a'].key == es[i].key {
        KeysOnce(es, a', i);
      }
    }
    forall k | k in m - {es[i].key} && k in belongs ensures k in KeySet(r) {
      var a :| 0 <= a < |es| && es[a].key == k;
      assert r[if a < i then a else a - 1] == es[a];
    }
  }

  /** A change to other keys does not matter. */
  lemma OtherAgrees<V>(es: seq<Pair<V>>, m: map<Str, V>, m': map<Str, V>, belongs: iset<Str>)
    requires Agrees(es, m, belongs)
    requires forall k :: k in belongs ==> (k in m <==> k in m') && (k in m ==> m[k] == m'[k])
    ensures Agrees(es, m', belongs)
  {
  }

  // ----- the table

  /** The keys of one bucket, under a hash function and a number of buckets. */
  ghost function Belonging(hashOf: Str -> nat, n: nat, i: nat): iset<Str>
    requires n > 0
  {
    iset k: Str | hashOf(k) % n == i
  }

  /** The contents that bucket `i` may have when the table stands for the map. */
  ghost function Good<V(!new)>(hashOf: Str -> nat, n: nat, i: nat, m: map<Str, V>): iset<Bucket<V>>
    requires n > 0
  {
    iset b: Bucket<V> | ValidBucket(b) && Agrees(b.entries, m, Belonging(hashOf, n, i))
  }

  // ----- the entries of a bucket in memory

  /** A bucket as it is stored: an array with room for `entries.Length` entries, the first `used` of them taken. */
  datatype Store<V> = Store(entries: array<Pair<V>>, used: nat)

  ghost predicate Holds<V>(s: Store<V>, b: Bucket<V>)
    reads s.entries
  {
    s.used <= s.entries.Length == b.total && s.entries[..s.used] == b.entries
  }

  /** memmove up by one, and the new entry into the gap */
  method ShiftUp<V>(a: array<Pair<V>>, used: nat, i: nat, e: Pair<V>)
    requires i <= used < a.Length
    modifies a
    ensures a[..used + 1] == Inserted(old(a[..used]), i, e)
  {
    var k := used;
    while k > i
      invariant i <= k <= used
      invariant forall x :: 0 <= x < k ==> a[x] == old(a[x])
      invariant forall x :: k < x <= used ==> a[x] == old(a[x - 1])
    {
      a[k] := a[k - 1];
      k := k - 1;
    }
    a[i] := e;
    InsertedAt(old(a[..used]), i, e, a[..used + 1]);
  }

  lemma InsertedAt<V>(es: seq<Pair<V>>, i: nat, e: Pair<V>, r: seq<Pair<V>>)
    requires i <= |es| && |r| == |es| + 1 && r[i] == e
    requires forall x :: 0 <= x < i ==> r[x] == es[x]
    requires forall x :: i < x < |r| ==> r[x] == es[x - 1]
    ensures r == Inserted(es, i, e)
  {
  }

  /** memmove down by one, over the entry that goes */
  method ShiftDown<V>(a: array<Pair<V>>, used: nat, i: nat)
    requires i < used <= a.Length
    modifies a
    ensures a[..used - 1] == Removed(old(a[..used]), i)
  {
    var k := i;
    while k + 1 < used
      invariant i <= k < used
      invariant forall x :: 0 <= x < i || k < x < used ==> a[x] == old(a[x])
      invariant forall x :: i <= x < k ==> a[x] == old(a[x + 1])
    {
      a[k] := a[k + 1];
      k := k + 1;
    }
    RemovedAt(old(a[..used]), i, a[..used - 1]);
  }

  lemma RemovedAt<V>(es: seq<Pair<V>>, i: nat, r: seq<Pair<V>>)
    requires i < |es| && |r| == |es| - 1
    requires forall x :: 0 <= x < i ==> r[x] == es[x]
    requires forall x :: i <= x < |r| ==> r[x] == es[x + 1]
    ensures r == Removed(es, i)
  {
  }

  /** realloc: the same entries in an array of another size; `filler` stands for what is not yet written */
  method Resized<V>(es: seq<Pair<V>>, total: nat, filler: Pair<V>) returns (a: array<Pair<V>>)
    requires |es| <= total
    ensures fresh(a) && a.Length == total && a[..|es|] == es
  {
    a := new Pair<V>[total](k => if 0 <= k < |es| then es[k] else filler);
  }

  /** The buckets of a new table: nothing allocated. */
  method EmptyStores<V>(n: nat) returns (stores: seq<Store<V>>, ghost arrays: set<array<Pair<V>>>)
    ensures |stores| == n && fresh(arrays)
    ensures forall i :: 0 <= i < n ==> stores[i].entries in arrays && Holds(stores[i], Bucket([], 0))
    ensures forall i, j :: 0 <= i < j < n ==> stores[i].entries != stores[j].entries
  {
    stores, arrays := [], {};
    while |stores| < n
      invariant |stores| <= n && fresh(arrays)
      invariant forall i :: 0 <= i < |stores| ==> stores[i].entries in arrays && Holds(stores[i], Bucket([], 0))
      invariant forall i, j :: 0 <= i < j < |stores| ==> stores[i].entries != stores[j].entries
    {
      var a := new Pair<V>[0];
      stores, arrays := stores + [Store(a, 0)], arrays + {a};
    }
  }

  class Hash<V(!new)> {
    const hashOf: Str -> nat
    const n: nat
    const step: nat
    var stores: seq<Store<V>>
    var count: nat
    ghost var arrays: set<array<Pair<V>>>
    ghost var buckets: seq<Bucket<V>>
    ghost var contents: map<Str, V>

    /** Every bucket but number `but` holds what it should, each in an array of its own. */
    ghost predicate Stored(but: int)
      reads this, arrays
    {
      && |stores| == |buckets| == n
      && (forall i :: 0 <= i < n ==> stores[i].entries in arrays)
      && (forall i :: 0 <= i < n && i != but ==> Holds(stores[i], buckets[i]))
      && (forall i, j :: 0 <= i < j < n ==> stores[i].entries != stores[j].entries)
    }

    /** The buckets are those of a table for the map. */
    ghost predicate Sound()
      reads this
    {
      step >= 4 && count == |contents| && AllGood(buckets, contents)
    }

    ghost predicate Valid()
      reads this, arrays
    {
      Stored(-1) && Sound()
    }

    /** hash_new, for a number of buckets that is a power of two */
    constructor (n: nat, hashOf: Str -> nat)
      requires n > 0
      ensures Valid() && fresh(arrays) && contents == map[] && this.n == n && this.hashOf == hashOf
    {
      this.n, this.hashOf := n, hashOf;
      step := if n / 32 < 4 then 4 else if n / 32 > 64 then 64 else n / 32;
      buckets := seq(n, _ => Bucket([], 0));
      count, contents := 0, map[];
      new;
      stores, arrays := EmptyStores(n);
    }

    function Position(key: Str): nat
      requires n > 0
    {
      hashOf(key) % n
    }

    /** Room for one more entry than there is. */
    ghost function Grown(b: Bucket<V>): Bucket<V> {
      if |b.entries| + 1 >= b.total then b.(total := b.total + step) else b
    }

    // ----- reading

    /** The table holds the buckets `bs`. */
    ghost predicate Shows(bs: seq<Bucket<V>>)
      reads this, arrays
    {
      forall k :: Asked(k) ==> Stored(-1) && buckets == bs
    }

    method Used(i: nat, ghost bs: seq<Bucket<V>>) returns (used: nat)
      requires Shows(bs) && i < n
      ensures |bs| == n && used == |bs[i].entries|
    {
      assert Asked(0) && Holds(stores[i], bs[i]);
      used := stores[i].used;
    }

    method EntryAt(i: nat, e: nat, ghost bs: seq<Bucket<V>>) returns (r: Option<Pair<V>>)
      requires Shows(bs) && i < n == |bs| && e < |bs[i].entries|
      ensures r == Some(bs[i].entries[e])
    {
      assert Asked(0) && Holds(stores[i], bs[i]);
      r := Some(stores[i].entries[e]);
    }

    // ----- changes to one bucket

    /** The bucket's array and what it holds now; the others are as they were. */
    method SetStore(pos: nat, s: Store<V>, ghost b: Bucket<V>)
      requires pos < n && Stored(pos) && Holds(s, b) && (s.entries == stores[pos].entries || s.entries !in arrays)
      modifies this`stores, this`arrays, this`buckets
      ensures Stored(-1) && stores == old(stores)[pos := s] && buckets == old(buckets)[pos := b]
      ensures arrays == old(arrays) + {s.entries}
    {
      stores, arrays, buckets := stores[pos := s], arrays + {s.entries}, buckets[pos := b];
    }

    method Grow(pos: nat, filler: Pair<V>)
      requires pos < n && Stored(-1)
      modifies this`stores, this`arrays, this`buckets
      ensures Stored(-1) && buckets == old(buckets)[pos := Grown(old(buckets[pos]))] && fresh(arrays - old(arrays))
    {
      var s := stores[pos];
      assert Holds(s, buckets[pos]);
      if s.used + 1 >= s.entries.Length {
        var a := Resized(s.entries[..s.used], s.entries.Length + step, filler);
        SetStore(pos, Store(a, s.used), Grown(buckets[pos]));
      }
    }

    /** The used entries of one bucket. */
    method Entries(pos: nat) returns (es: seq<Pair<V>>)
      requires pos < n && Stored(-1)
      ensures es == buckets[pos].entries && |es| <= stores[pos].entries.Length
    {
      assert Holds(stores[pos], buckets[pos]);
      es := stores[pos].entries[..stores[pos].used];
    }

    method PutEntry(pos: nat, i: nat, e: Pair<V>)
      requires pos < n && Stored(-1) && i < |buckets[pos].entries|
      modifies this`stores, this`arrays, this`buckets, arrays
      ensures Stored(-1) && arrays == old(arrays)
      ensures var b := old(buckets[pos]); buckets == old(buckets)[pos := b.(entries := b.entries[i := e])]
    {
      var s := stores[pos];
      ghost var b := buckets[pos];
      assert Holds(s, b);
      s.entries[i] := e;
      SetStore(pos, s, b.(entries := b.entries[i := e]));
    }

    method InsertEntry(pos: nat, i: nat, e: Pair<V>)
      requires pos < n && Stored(-1) && i <= |buckets[pos].entries| < buckets[pos].total
      modifies this`stores, this`arrays, this`buckets, arrays
      ensures Stored(-1) && arrays == old(arrays)
      ensures var b := old(buckets[pos]); buckets == old(buckets)[pos := b.(entries := Inserted(b.entries, i, e))]
    {
      var s := stores[pos];
      ghost var b := buckets[pos];
      assert Holds(s, b);
      ShiftUp(s.entries, s.used, i, e);
      SetStore(pos, s.(used := s.used + 1), b.(entries := Inserted(b.entries, i, e)));
    }

    method RemoveEntry(pos: nat, i: nat)
      requires pos < n && Stored(-1) && i < |buckets[pos].entries|
      modifies this`stores, this`arrays, this`buckets, arrays
      ensures Stored(-1) && arrays == old(arrays)
      ensures var b := old(buckets[pos]); buckets == old(buckets)[pos := b.(entries := Removed(b.entries, i))]
    {
      var s := stores[pos];
      ghost var b := buckets[pos];
      assert Holds(s, b);
      ShiftDown(s.entries, s.used, i);
      SetStore(pos, s.(used := s.used - 1), b.(entries := Removed(b.entries, i)));
    }

    /** Whole steps that are not needed go. */
    ghost function Shrunk(b: Bucket<V>): Bucket<V>
      requires step > 0
    {
      if |b.entries| / step + 1 < b.total / step then b.(total := (|b.entries| / step + 1) * step) else b
    }

    lemma ShrunkRoom(b: Bucket<V>)
      requires step > 0 && |b.entries| < b.total
      ensures |Shrunk(b).entries| < Shrunk(b).total && Shrunk(b).entries == b.entries
    {
      var used := |b.entries|;
      assert used == used / step * step + used % step;
    }

    method Shrink(pos: nat, filler: Pair<V>)
      requires pos < n && step > 0 && Stored(-1) && |buckets[pos].entries| < buckets[pos].total
      modifies this`stores, this`arrays, this`buckets
      ensures Stored(-1) && buckets == old(buckets)[pos := Shrunk(old(buckets[pos]))] && fresh(arrays - old(arrays))
    {
      var s := stores[pos];
      assert Holds(s, buckets[pos]);
      ShrunkRoom(buckets[pos]);
      if s.used / step + 1 < s.entries.Length / step {
        var a := Resized(s.entries[..s.used], (s.used / step + 1) * step, filler);
        SetStore(pos, Store(a, s.used), Shrunk(buckets[pos]));
      }
    }

    /** An entry removed, and the room it leaves if that is too much. */
    method CutEntry(pos: nat, i: nat, filler: Pair<V>)
      requires pos < n && step > 0 && Stored(-1) && i < |buckets[pos].entries| <= buckets[pos].total
      modifies this`stores, this`arrays, this`buckets, arrays
      ensures Stored(-1) && fresh(arrays - old(arrays))
      ensures var b := old(buckets[pos]);
              buckets == old(buckets)[pos := Shrunk(b.(entries := Removed(b.entries, i)))]
    {
      RemoveEntry(pos, i);
      Shrink(pos, filler);
    }

    // ----- the operations

    /** hash_add: add or replace */
    method Add(key: Str, value: V)
      requires Valid()
      modifies this, arrays
      ensures Valid() && contents == old(contents)[key := value] && fresh(arrays - old(arrays))
    {
      var pos := Position(key);
      ghost var b := buckets[pos];
      Grow(pos, Pair(key, value));
      GrownGood(b, pos);
      var es := Entries(pos);
      var i := FindPlace(es, key);
      if i < |es| && es[i].key == key {
        Replace(pos, i, Pair(key, value));
      } else {
        InsertNew(pos, i, Pair(key, value));
      }
    }

    /** hash_add_unique: fails if the key is there */
    method AddUnique(key: Str, value: V) returns (err: int)
      requires Valid()
      modifies this, arrays
      ensures Valid() && err == (if key in old(contents) then -EEXIST else 0) && fresh(arrays - old(arrays))
      ensures contents == if key in old(contents) then old(contents) else old(contents)[key := value]
    {
      var pos := Position(key);
      ghost var b := buckets[pos];
      Grow(pos, Pair(key, value));
      GrownGood(b, pos);
      var es := Entries(pos);
      var i := FindPlace(es, key);
      if i < |es| && es[i].key == key {
        KeyPresent(buckets[pos], contents, pos, i);
        err := -EEXIST;
      } else {
        InsertNew(pos, i, Pair(key, value));
        err := 0;
      }
    }

    lemma GrownGood(b: Bucket<V>, pos: nat)
      requires n > 0 && step >= 4 && b in Good(hashOf, n, pos, contents)
      ensures Grown(b) in Good(hashOf, n, pos, contents) && |Grown(b).entries| + 1 < Grown(b).total
    {
    }

    lemma KeyPresent(b: Bucket<V>, m: map<Str, V>, pos: nat, i: nat)
      requires n > 0 && b in Good(hashOf, n, pos, m) && i < |b.entries|
      ensures b.entries[i].key in m && m[b.entries[i].key] == b.entries[i].value
    {
    }

    lemma KeyAbsent(b: Bucket<V>, key: Str, i: nat)
      requires SortedKeys(b.entries) && IsPlace(b.entries, key, i) && (i < |b.entries| ==> b.entries[i].key != key)
      ensures key !in KeySet(b.entries) && forall k :: 0 <= k < |b.entries| ==> b.entries[k].key != key
    {
      forall k | 0 <= k < |b.entries| ensures b.entries[k].key != key {
        LessIrreflexive(key);
        if k > i {
          LessTransitive(key, b.entries[i].key, b.entries[k].key);
        }
      }
    }

    method Replace(pos: nat, i: nat, e: Pair<V>)
      requires Valid() && pos == Position(e.key) && i < |buckets[pos].entries| && buckets[pos].entries[i].key == e.key
      modifies this, arrays
      ensures Valid() && contents == old(contents)[e.key := e.value] && arrays == old(arrays)
    {
      ghost var m := contents;
      ReplacedGood(buckets[pos], pos, i, e);
      OthersGood(buckets, m, m[e.key := e.value], pos, e.key, buckets[pos].(entries := buckets[pos].entries[i := e]));
      PutEntry(pos, i, e);
      contents := m[e.key := e.value];
      SameSize(m, contents);
    }

    lemma ReplacedGood(b: Bucket<V>, pos: nat, i: nat, e: Pair<V>)
      requires n > 0 && pos == Position(e.key) && b in Good(hashOf, n, pos, contents)
      requires i < |b.entries| && b.entries[i].key == e.key
      ensures contents[e.key := e.value].Keys == contents.Keys
      ensures b.(entries := b.entries[i := e]) in Good(hashOf, n, pos, contents[e.key := e.value])
    {
      KeyPresent(b, contents, pos, i);
      ReplacedSorted(b.entries, i, e);
      ReplacedAgrees(b.entries, i, e, contents, Belonging(hashOf, n, pos));
    }

    lemma SameSize(m: map<Str, V>, m': map<Str, V>)
      requires m.Keys == m'.Keys
      ensures |m| == |m'|
    {
      assert |m| == |m.Keys| && |m'| == |m'.Keys|;
    }

    method InsertNew(pos: nat, i: nat, e: Pair<V>)
      requires Valid() && pos == Position(e.key) && |buckets[pos].entries| + 1 < buckets[pos].total
      requires var es := buckets[pos].entries; IsPlace(es, e.key, i) && (i < |es| ==> es[i].key != e.key)
      modifies this, arrays
      ensures Valid() && arrays == old(arrays)
      ensures e.key !in old(contents) && contents == old(contents)[e.key := e.value]
    {
      ghost var m := contents;
      InsertedGood(buckets[pos], pos, i, e);
      OthersGood(buckets, m, m[e.key := e.value], pos, e.key,
                 buckets[pos].(entries := Inserted(buckets[pos].entries, i, e)));
      InsertEntry(pos, i, e);
      contents := m[e.key := e.value];
      count := count + 1;
    }

    lemma InsertedGood(b: Bucket<V>, pos: nat, i: nat, e: Pair<V>)
      requires n > 0 && pos == Position(e.key) && b in Good(hashOf, n, pos, contents) && |b.entries| + 1 < b.total
      requires IsPlace(b.entries, e.key, i) && (i < |b.entries| ==> b.entries[i].key != e.key)
      ensures e.key !in contents
      ensures b.(entries := Inserted(b.entries, i, e)) in Good(hashOf, n, pos, contents[e.key := e.value])
    {
      KeyAbsent(b, e.key, i);
      NotThere(b, e.key, pos);
      InsertedSorted(b.entries, i, e);
      InsertedAgrees(b.entries, i, e, contents, Belonging(hashOf, n, pos));
    }

    /** All buckets are good for the map. */
    ghost predicate AllGood(bs: seq<Bucket<V>>, m: map<Str, V>) {
      n > 0 && |bs| == n && forall i :: 0 <= i < n ==> bs[i] in Good(hashOf, n, i, m)
    }

    /** A change to one key, in its bucket, keeps the other buckets good. */
    lemma OthersGood(bs: seq<Bucket<V>>, m: map<Str, V>, m': map<Str, V>, pos: nat, key: Str, b: Bucket<V>)
      requires AllGood(bs, m) && pos == Position(key) && b in Good(hashOf, n, pos, m')
      requires forall k :: k != key ==> (k in m <==> k in m') && (k in m ==> m[k] == m'[k])
      ensures AllGood(bs[pos := b], m')
    {
      forall j | 0 <= j < n && j != pos ensures bs[j] in Good(hashOf, n, j, m') {
        OtherAgrees(bs[j].entries, m, m', Belonging(hashOf, n, j));
      }
    }

    /** hash_find */
    method Find(key: Str) returns (r: Option<V>)
      requires Valid()
      ensures r == if key in contents then Some(contents[key]) else None
    {
      var pos := Position(key);
      var es := Entries(pos);
      if stores[pos].entries.Length == 0 {
        NotThere(buckets[pos], key, pos);
        return None;
      }
      var i := Search(es, key);
      if i.None? {
        NotThere(buckets[pos], key, pos);
        return None;
      }
      KeyPresent(buckets[pos], contents, pos, i.value);
      r := Some(es[i.value].value);
    }

    lemma NotThere(b: Bucket<V>, key: Str, pos: nat)
      requires n > 0 && pos == Position(key) && b in Good(hashOf, n, pos, contents)
      requires forall k :: 0 <= k < |b.entries| ==> b.entries[k].key != key
      ensures key !in contents
    {
      assert key in Belonging(hashOf, n, pos);
      assert key in contents ==> key in KeySet(b.entries);
    }

    /** hash_del */
    method Del(key: Str) returns (err: int)
      requires Valid()
      modifies this, arrays
      ensures Valid() && err == (if key in old(contents) then 0 else -ENOENT) && fresh(arrays - old(arrays))
      ensures contents == old(contents) - {key}
    {
      var pos := Position(key);
      var es := Entries(pos);
      if stores[pos].entries.Length == 0 {
        NotThere(buckets[pos], key, pos);
        return -ENOENT;
      }
      var i := Search(es, key);
      if i.None? {
        NotThere(buckets[pos], key, pos);
        return -ENOENT;
      }
      RemoveAt(pos, i.value, es[i.value]);
      err := 0;
    }

    method RemoveAt(pos: nat, i: nat, e: Pair<V>)
      requires Valid() && pos == Position(e.key) && i < |buckets[pos].entries| && buckets[pos].entries[i] == e
      modifies this, arrays
      ensures Valid() && fresh(arrays - old(arrays))
      ensures e.key in old(contents) && contents == old(contents) - {e.key}
    {
      ghost var m := contents;
      RemovedGood(buckets[pos], pos, i);
      OthersGood(buckets, m, m - {e.key}, pos, e.key,
                 Shrunk(buckets[pos].(entries := Removed(buckets[pos].entries, i))));
      CutEntry(pos, i, e);
      contents := m - {e.key};
      count := count - 1;
    }

    lemma RemovedGood(b: Bucket<V>, pos: nat, i: nat)
      requires n > 0 && step >= 4 && b in Good(hashOf, n, pos, contents) && i < |b.entries|
      ensures b.entries[i].key in contents && |contents - {b.entries[i].key}| == |contents| - 1
      ensures var less := b.(entries := Removed(b.entries, i));
              |less.entries| < less.total && Shrunk(less) in Good(hashOf, n, pos, contents - {b.entries[i].key})
    {
      KeyPresent(b, contents, pos, i);
      RemovedSorted(b.entries, i);
      RemovedAgrees(b.entries, i, contents, Belonging(hashOf, n, pos));
      ShrunkRoom(b.(entries := Removed(b.entries, i)));
      SmallerMap(contents, b.entries[i].key);
    }

    lemma SmallerMap(m: map<Str, V>, key: Str)
      requires key in m
      ensures |m - {key}| == |m| - 1
    {
      assert m == (m - {key})[key := m[key]];
    }
  }

  // ----- iteration

  /** The entries of the first `i` buckets in order. */
  function Flatten<V>(buckets: seq<Bucket<V>>, i: nat): seq<Pair<V>>
    requires i <= |buckets|
  {
    if i == 0 then [] else Flatten(buckets, i - 1) + buckets[i - 1].entries
  }

  lemma {:induction false} FlattenPrefix<V>(buckets: seq<Bucket<V>>, i: nat, j: nat)
    requires i <= j <= |buckets|
    ensures Flatten(buckets, i) <= Flatten(buckets, j)
    decreases j
  {
    if i < j {
      FlattenPrefix(buckets, i, j - 1);
    }
  }

  lemma {:induction false} FlattenOverEmpty<V>(buckets: seq<Bucket<V>>, i: nat, j: nat)
    requires i <= j <= |buckets| && forall k :: i <= k < j ==> buckets[k].entries == []
    ensures Flatten(buckets, j) == Flatten(buckets, i)
    decreases j
  {
    if i < j {
      FlattenOverEmpty(buckets, i, j - 1);
    }
  }

  /** Where the entry `e` of bucket `b` comes in the whole. */
  lemma FlattenAt<V>(buckets: seq<Bucket<V>>, b: nat, e: nat)
    requires b < |buckets| && e < |buckets[b].entries|
    ensures var all := Flatten(buckets, |buckets|); var k := |Flatten(buckets, b)| + e;
            k < |all| && all[k] == buckets[b].entries[e]
  {
    FlattenPrefix(buckets, b + 1, |buckets|);
    var upto := Flatten(buckets, b + 1);
    assert upto[|Flatten(buckets, b)| + e] == buckets[b].entries[e];
  }

  /** An iterator: the bucket it is in, the entry it returned last, -1 before the first. */
  class Iterator<V(!new)> {
    const hash: Hash<V>
    var bucket: nat
    var entry: int

    /** hash_iter_init */
    constructor (hash: Hash<V>)
      ensures this.hash == hash && bucket == 0 && entry == -1
    {
      this.hash := hash;
      bucket, entry := 0, -1;
    }

    /** It has returned the first `k` entries. */
    ghost predicate At(k: nat, bs: seq<Bucket<V>>)
      reads this
    {
      bucket < |bs| && -1 <= entry < |bs[bucket].entries| && k == |Flatten(bs, bucket)| + entry + 1
    }

    /** hash_iter_next */
    method Next(ghost k: nat, ghost bs: seq<Bucket<V>>) returns (r: Option<Pair<V>>)
      requires hash.Shows(bs) && |bs| == hash.n && At(k, bs)
      modifies this
      ensures r.Some? ==> At(k + 1, bs) && k < |Flatten(bs, |bs|)| && r.value == Flatten(bs, |bs|)[k]
      ensures r.None? ==> k == |Flatten(bs, |bs|)|
    {
      var more := Advance(k, bs);
      if !more {
        return None;
      }
      FlattenAt(bs, bucket, entry);
      r := hash.EntryAt(bucket, entry, bs);
    }

    /** To the next entry, if there is one. */
    method Advance(ghost k: nat, ghost bs: seq<Bucket<V>>) returns (more: bool)
      requires hash.Shows(bs) && |bs| == hash.n && At(k, bs)
      modifies this
      ensures if more then bucket < |bs| && 0 <= entry < |bs[bucket].entries| && k == |Flatten(bs, bucket)| + entry
              else k == |Flatten(bs, |bs|)|
    {
      more := true;
      entry := entry + 1;
      var used := hash.Used(bucket, bs);
      if entry >= used {
        SkipEmpty(bs);
        more := bucket < hash.n;
      }
    }

    /** To the next bucket that has entries. */
    method SkipEmpty(ghost bs: seq<Bucket<V>>)
      requires hash.Shows(bs) && |bs| == hash.n && bucket < hash.n
      modifies this
      ensures entry == 0 && old(bucket) < bucket <= hash.n
      ensures bucket < hash.n ==> bs[bucket].entries != []
      ensures |Flatten(bs, bucket)| == |Flatten(bs, old(bucket))| + |bs[old(bucket)].entries|
    {
      ghost var from := bucket;
      entry := 0;
      bucket := bucket + 1;
      while bucket < hash.n
        invariant from < bucket <= hash.n && entry == 0
        invariant forall i :: from < i < bucket ==> bs[i].entries == []
      {
        var used := hash.Used(bucket, bs);
        if used > 0 {
          break;
        }
        bucket := bucket + 1;
      }
      FlattenOverEmpty(bs, from + 1, bucket);
    }
  }

  /** Each entry of a list is a pair of the map, and no key occurs twice. */
  ghost predicate Lists<V>(all: seq<Pair<V>>, m: map<Str, V>) {
    SomeOf(all, m) && KeysDiffer(all) && forall k :: k in m ==> k in KeySet(all)
  }

  ghost predicate SomeOf<V>(all: seq<Pair<V>>, m: map<Str, V>) {
    forall i :: 0 <= i < |all| ==> all[i].key in m && m[all[i].key] == all[i].value
  }

  ghost predicate KeysDiffer<V>(all: seq<Pair<V>>) {
    forall i, j :: 0 <= i < j < |all| ==> all[i].key != all[j].key
  }

  /** All keys belong to buckets below `c`. */
  ghost predicate BelowBucket<V>(all: seq<Pair<V>>, hashOf: Str -> nat, n: nat, c: int)
    requires n > 0
  {
    forall i :: 0 <= i < |all| ==> hashOf(all[i].key) % n < c
  }

  lemma {:induction false} FlattenMember<V>(buckets: seq<Bucket<V>>, i: nat, e: Pair<V>)
    requires i <= |buckets|
    ensures e in Flatten(buckets, i) <==> exists b :: 0 <= b < i && e in buckets[b].entries
  {
    if i > 0 {
      FlattenMember(buckets, i - 1, e);
    }
  }

  /** An iteration visits every pair of the map exactly once. */
  method VisitAll<V(!new)>(hash: Hash<V>) returns (all: seq<Pair<V>>)
    requires hash.Valid()
    ensures Lists(all, hash.contents) && |all| == hash.count
  {
    ghost var bs := hash.buckets;
    WholeTable(hash.hashOf, hash.n, bs, hash.contents);
    all := Iterate(hash, bs);
  }

  method Iterate<V(!new)>(hash: Hash<V>, ghost bs: seq<Bucket<V>>) returns (all: seq<Pair<V>>)
    requires hash.Shows(bs) && |bs| == hash.n > 0
    ensures all == Flatten(bs, |bs|)
  {
    var iter := new Iterator(hash);
    ghost var whole := Flatten(bs, |bs|);
    all := [];
    var more := true;
    while more
      invariant iter.hash == hash && fresh(iter) && |all| <= |whole| && all == whole[..|all|]
      invariant if more then iter.At(|all|, bs) else all == whole
      decreases more, |whole| - |all|
    {
      var r := iter.Next(|all|, bs);
      if r.Some? {
        assert whole[..|all| + 1] == all + [r.value];
        all := all + [r.value];
      } else {
        assert whole[..|whole|] == whole;
        more := false;
      }
    }
  }

  /** The keys of different buckets differ. */
  lemma WholeTable<V(!new)>(hashOf: Str -> nat, n: nat, buckets: seq<Bucket<V>>, m: map<Str, V>)
    requires n > 0 && |buckets| == n && forall i :: 0 <= i < n ==> buckets[i] in Good(hashOf, n, i, m)
    ensures Lists(Flatten(buckets, n), m) && |Flatten(buckets, n)| == |m|
  {
    PartTable(hashOf, n, buckets, m, n);
    var all := Flatten(buckets, n);
    forall k | k in m ensures k in KeySet(all) {
      var b := hashOf(k) % n;
      assert k in Belonging(hashOf, n, b);
      assert buckets[b] in Good(hashOf, n, b, m);
      assert k in KeySet(buckets[b].entries);
      var i :| 0 <= i < |buckets[b].entries| && buckets[b].entries[i].key == k;
      FlattenMember(buckets, n, buckets[b].entries[i]);
      var j :| 0 <= j < |all| && all[j] == buckets[b].entries[i];
    }
    ListSize(all, m);
  }

  lemma {:induction false} PartTable<V(!new)>(hashOf: Str -> nat, n: nat, buckets: seq<Bucket<V>>, m: map<Str, V>,
                                              c: nat)
    requires n > 0 && |buckets| == n && c <= n && forall i :: 0 <= i < n ==> buckets[i] in Good(hashOf, n, i, m)
    ensures var all := Flatten(buckets, c); SomeOf(all, m) && KeysDiffer(all) && BelowBucket(all, hashOf, n, c)
    decreases c
  {
    if c > 0 {
      PartTable(hashOf, n, buckets, m, c - 1);
      OneBucket(hashOf, n, buckets[c - 1], m, c - 1);
      JoinBuckets(Flatten(buckets, c - 1), buckets[c - 1].entries, hashOf, n, m, c - 1);
    }
  }

  lemma OneBucket<V(!new)>(hashOf: Str -> nat, n: nat, b: Bucket<V>, m: map<Str, V>, c: nat)
    requires n > 0 && b in Good(hashOf, n, c, m)
    ensures SomeOf(b.entries, m) && KeysDiffer(b.entries)
    ensures forall i :: 0 <= i < |b.entries| ==> hashOf(b.entries[i].key) % n == c
  {
    var es := b.entries;
    forall i | 0 <= i < |es| ensures hashOf(es[i].key) % n == c {
      assert es[i].key in Belonging(hashOf, n, c);
    }
    forall i, j | 0 <= i < j < |es| ensures es[i].key != es[j].key {
      LessIrreflexive(es[i].key);
    }
  }

  lemma JoinBuckets<V>(all: seq<Pair<V>>, es: seq<Pair<V>>, hashOf: Str -> nat, n: nat, m: map<Str, V>, c: nat)
    requires n > 0 && SomeOf(all, m) && KeysDiffer(all) && BelowBucket(all, hashOf, n, c)
    requires SomeOf(es, m) && KeysDiffer(es) && forall i :: 0 <= i < |es| ==> hashOf(es[i].key) % n == c
    ensures SomeOf(all + es, m) && KeysDiffer(all + es) && BelowBucket(all + es, hashOf, n, c + 1)
  {
    var r := all + es;
    forall i, j | 0 <= i < j < |r| ensures r[i].key != r[j].key {
      if i < |all| <= j {
        assert hashOf(all[i].key) % n < hashOf(es[j - |all|].key) % n;
      }
    }
  }

  lemma {:induction false} ListSize<V>(all: seq<Pair<V>>, m: map<Str, V>)
    requires Lists(all, m)
    ensures |all| == |m|
    decreases |all|
  {
    if all == [] {
      assert m == map[];
    } else {
      var last := all[|all| - 1];
      var front, rest := all[..|all| - 1], m - {last.key};
      WithoutLast(all, m, front, rest, last);
      ListSize(front, rest);
      assert m == rest[last.key := last.value];
    }
  }

  lemma WithoutLast<V>(all: seq<Pair<V>>, m: map<Str, V>, front: seq<Pair<V>>, rest: map<Str, V>, last: Pair<V>)
    requires Lists(all, m) && all != [] && front == all[..|all| - 1] && last == all[|all| - 1] && rest == m - {last.key}
    ensures Lists(front, rest) && last.key in m && m[last.key] == last.value
  {
    forall k | k in rest ensures k in KeySet(front) {
      var i :| 0 <= i < |all| && all[i].key == k;
      assert front[i].key == k;
    }
  }
}
