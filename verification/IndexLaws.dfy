/**
 The index end to end: depmod inserts entries into a tree of nodes and writes it to a file;
 libkmod's two readers search and list that file.
 */
module IndexLaws {
  import opened Text
  import opened PatriciaTrie
  import opened Layout
  import opened IndexBuilder
  import IndexWriter
  import opened Glob
  import opened WildSpec
  import opened WildSearch
  import opened Listing
  import MmReader
  import MmWild
  import FileReader
  import Dump

  /** Insert the entries in order and write the index; `duplicates` says which insertions repeated a pair. */
  method WriteIndex(h: seq<Entry>) returns (file: Str, duplicates: seq<bool>)
    requires ValidEntries(h)
    ensures file == FileImage(BuildIndex(h))
    ensures |duplicates| == |h|
    ensures forall i :: 0 <= i < |h| ==> (duplicates[i] <==> Repeats(h, i))
  {
    var root;
    ghost var s, owned;
    root, s := IndexCreate();
    duplicates, s, owned := InsertAll(h, root, s, {root});
    BuildWellFormed(h);
    RepeatFlagsAt(h, |h|);
    file := IndexWriter.IndexWrite(root, s, owned);
  }

  method InsertAll(h: seq<Entry>, root: IndexNode, ghost s0: Shape, ghost owned0: set<IndexNode>)
    returns (duplicates: seq<bool>, ghost s: Shape, ghost owned: set<IndexNode>)
    requires ValidEntries(h) && IsIndex(root, s0, owned0) && TrieOf(s0) == EMPTY
    modifies owned0
    ensures fresh(owned - owned0) && IsIndex(root, s, owned) && TrieOf(s) == Build(h)
    ensures duplicates == RepeatFlags(h, |h|)
  {
    var i := 0;
    s, owned, duplicates := s0, owned0, [];
    while i < |h|
      invariant i <= |h| && duplicates == RepeatFlags(h, i)
      invariant fresh(owned - owned0) && IsIndex(root, s, owned) && TrieOf(s) == BuildFirst(h, i)
    {
      var duplicate;
      duplicate, s, owned := InsertNext(h, i, root, s, owned);
      duplicates := duplicates + [duplicate];
      i := i + 1;
    }
    assert h[..i] == h;
  }

  method InsertNext(h: seq<Entry>, i: nat, root: IndexNode, ghost s: Shape, ghost owned: set<IndexNode>)
    returns (duplicate: bool, ghost s': Shape, ghost owned': set<IndexNode>)
    requires ValidEntries(h) && i < |h| && IsIndex(root, s, owned) && TrieOf(s) == BuildFirst(h, i)
    modifies owned
    ensures fresh(owned' - owned) && IsIndex(root, s', owned') && TrieOf(s') == BuildFirst(h, i + 1)
    ensures duplicate == Repeats(h, i)
  {
    EntryNext(h, i);
    duplicate, s', owned' := InsertEntry(h[i], root, s, owned);
  }

  ghost function BuildFirst(h: seq<Entry>, i: nat): Trie
    requires i <= |h|
  {
    Build(h[..i])
  }

  /** One insertion, with the nodes it may have added. */
  method InsertEntry(e: Entry, root: IndexNode, ghost s: Shape, ghost owned: set<IndexNode>)
    returns (duplicate: bool, ghost s': Shape, ghost owned': set<IndexNode>)
    requires IsAscii(e.key) && IsIndex(root, s, owned)
    modifies owned
    ensures fresh(owned' - owned) && IsIndex(root, s', owned')
    ensures TrieOf(s') == Insert(TrieOf(s), e.key, e.value)
    ensures duplicate == Known(TrieOf(s), e.key, e.value.text)
  {
    ghost var n, child;
    duplicate, s', n, child := IndexInsert(root, e.key, e.value.text, e.value.priority, s, owned);
    owned' := owned + {n, child};
  }

  /** An earlier entry has the same key and text. */
  predicate Repeats(h: seq<Entry>, i: nat)
    requires i < |h|
  {
    exists k :: 0 <= k < i && h[k].key == h[i].key && h[k].value.text == h[i].value.text
  }

  function RepeatFlags(h: seq<Entry>, n: nat): seq<bool>
    requires n <= |h|
  {
    if n == 0 then [] else RepeatFlags(h, n - 1) + [Repeats(h, n - 1)]
  }

  lemma {:induction false} RepeatFlagsAt(h: seq<Entry>, n: nat)
    requires n <= |h|
    ensures |RepeatFlags(h, n)| == n && forall i :: 0 <= i < n ==> (RepeatFlags(h, n)[i] <==> Repeats(h, i))
  {
    if n > 0 {
      RepeatFlagsAt(h, n - 1);
    }
  }

  lemma EntryNext(h: seq<Entry>, i: nat)
    requires i < |h|
    ensures BuildFirst(h, i + 1) == Insert(BuildFirst(h, i), h[i].key, h[i].value)
    ensures Repeats(h, i) <==> Known(BuildFirst(h, i), h[i].key, h[i].value.text)
  {
    assert h[..i + 1][..i] == h[..i];
    RepeatsLookup(h, i);
  }

  /** The values stored under a key are those inserted under it. */
  lemma LookupMember(h: seq<Entry>, key: Str, v: Value)
    ensures v in Lookup(Build(h), key) <==> Entry(key, v) in h
  {
    BuildLookup(h, key);
    AddAllMultiset([], ValuesOf(h, key));
    assert v in AddAll([], ValuesOf(h, key)) <==> v in multiset(AddAll([], ValuesOf(h, key)));
    assert v in ValuesOf(h, key) <==> v in multiset(ValuesOf(h, key));
    ValuesOfMember(h, key);
  }

  lemma RepeatsLookup(h: seq<Entry>, i: nat)
    requires i < |h|
    ensures Repeats(h, i) <==> exists v :: v in Lookup(Build(h[..i]), h[i].key) && v.text == h[i].value.text
  {
    if Repeats(h, i) {
      var k :| 0 <= k < i && h[k].key == h[i].key && h[k].value.text == h[i].value.text;
      LookupMember(h[..i], h[i].key, h[k].value);
      assert h[..i][k] == h[k];
    }
    if v :| v in Lookup(Build(h[..i]), h[i].key) && v.text == h[i].value.text {
      LookupMember(h[..i], h[i].key, v);
      var k :| 0 <= k < i && h[..i][k] == Entry(h[i].key, v);
    }
  }

  /** Place of the last value of least priority. */
  predicate LatestOfLeast(vs: seq<Value>, k: nat) {
    && k < |vs|
    && (forall i :: 0 <= i < k ==> vs[k].priority <= vs[i].priority)
    && (forall i :: k < i < |vs| ==> vs[k].priority < vs[i].priority)
  }

  predicate Inserted(h: seq<Entry>, key: Str) {
    exists i :: 0 <= i < |h| && h[i].key == key
  }

  lemma InsertedValues(h: seq<Entry>, key: Str)
    ensures Inserted(h, key) <==> ValuesOf(h, key) != []
  {
    ValuesOfMember(h, key);
    if Inserted(h, key) {
      var i :| 0 <= i < |h| && h[i].key == key;
      assert Entry(key, h[i].value) in h;
    }
    if ValuesOf(h, key) != [] {
      var v := ValuesOf(h, key)[0];
      assert v in ValuesOf(h, key);
      var i :| 0 <= i < |h| && h[i] == Entry(key, v);
    }
  }

  /**
   A search in the mapped file finds nothing exactly when the key was never inserted; otherwise the text of least
   priority, inserted last among equals. `latest` is its place among the values inserted under the key.
   */
  method SearchWritten(h: seq<Entry>, key: Str) returns (r: Option<Str>, ghost latest: nat)
    requires ValidEntries(h) && Fits(BuildIndex(h))
    ensures r.None? <==> !Inserted(h, key)
    ensures r.Some? ==> LatestOfLeast(ValuesOf(h, key), latest) && r.value == ValuesOf(h, key)[latest].text
  {
    var file, _ := WriteIndex(h);
    r := MmReader.Search(file, key, BuildIndex(h));
    BuildLookup(h, key);
    InsertedValues(h, key);
    latest := 0;
    if ValuesOf(h, key) != [] {
      latest := HeadIsLatestOfLeast(ValuesOf(h, key));
    }
  }

  /** The stream reader finds the first inserted among equals. */
  method SearchWrittenFile(h: seq<Entry>, key: Str) returns (r: Option<Str>, ghost earliest: nat)
    requires ValidEntries(h) && Fits(BuildIndex(h))
    ensures r.None? <==> !Inserted(h, key)
    ensures r.Some? ==> FileReader.IsEarliest(ValuesOf(h, key), earliest) && r.value == ValuesOf(h, key)[earliest].text
  {
    var file, _ := WriteIndex(h);
    r := FileReader.Search(file, key, BuildIndex(h));
    BuildLookup(h, key);
    InsertedValues(h, key);
    earliest := 0;
    if ValuesOf(h, key) != [] {
      earliest := FileReader.HeadIsEarliestOfLeast(ValuesOf(h, key));
    }
  }

  lemma LatestUnique(vs: seq<Value>, a: nat, b: nat)
    requires LatestOfLeast(vs, a) && LatestOfLeast(vs, b)
    ensures a == b
  {
    assert vs[a].priority <= vs[b].priority <= vs[a].priority;
  }

  lemma EarliestUnique(vs: seq<Value>, a: nat, b: nat)
    requires FileReader.IsEarliest(vs, a) && FileReader.IsEarliest(vs, b)
    ensures a == b
  {
    assert vs[a].priority <= vs[b].priority <= vs[a].priority;
  }

  /** Under distinct priorities there is one value of least priority. */
  lemma DistinctPriorities(vs: seq<Value>, a: nat, b: nat)
    requires FileReader.IsEarliest(vs, a) && LatestOfLeast(vs, b)
    requires forall i, j :: 0 <= i < j < |vs| ==> vs[i].priority != vs[j].priority
    ensures a == b
  {
    assert vs[a].priority <= vs[b].priority <= vs[a].priority;
  }

  /** The two readers agree exactly when the first and the last inserted value of least priority have the same text. */
  method ReadersCompared(h: seq<Entry>, key: Str) returns (agree: bool, ghost earliest: nat, ghost latest: nat)
    requires ValidEntries(h) && Fits(BuildIndex(h))
    ensures !Inserted(h, key) ==> agree
    ensures Inserted(h, key) ==>
      var vs := ValuesOf(h, key);
      && FileReader.IsEarliest(vs, earliest) && LatestOfLeast(vs, latest)
      && (agree <==> vs[earliest].text == vs[latest].text)
    ensures (forall i, j :: 0 <= i < j < |ValuesOf(h, key)| ==>
        ValuesOf(h, key)[i].priority != ValuesOf(h, key)[j].priority) ==> agree
  {
    var mm, file;
    mm, latest := SearchWritten(h, key);
    file, earliest := SearchWrittenFile(h, key);
    agree := mm == file;
    if mm.Some? {
      var vs := ValuesOf(h, key);
      if forall i, j :: 0 <= i < j < |vs| ==> vs[i].priority != vs[j].priority {
        DistinctPriorities(vs, earliest, latest);
      }
    }
  }

  /** Both readers' wildcard searches return the same values, those of the matching insertions, by priority. */
  method SearchWildWritten(h: seq<Entry>, query: Str) returns (mm: seq<Value>, file: seq<Value>)
    requires ValidEntries(h) && Fits(BuildIndex(h))
    ensures Sorted(mm) && Sorted(file) && multiset(mm) == multiset(file)
    ensures multiset(mm) == Hits(h, IndexMatching(query)) + Surplus(BuildIndex(h), query)
    ensures IsPlain(query) ==> multiset(mm) == Hits(h, IndexMatching(query))
    ensures IsPlain(query) && Literal(h) ==> multiset(mm) == Hits(h, Matching(query))
    ensures IsPlain(query) && Literal(h) ==> forall v :: multiset(mm)[v] == |Insertions(h, Matching(query), v)|
  {
    var image, _ := WriteIndex(h);
    mm := MmWild.SearchWild(image, query, BuildIndex(h));
    file := FileReader.SearchWild(image, query, BuildIndex(h));
    CollectedIsHits(BuildIndex(h), query);
    BuildHits(h, IndexMatching(query));
    if IsPlain(query) {
      PlainQueryNoSurplus(BuildIndex(h), query);
      if Literal(h) {
        HitsAgree(h, query);
        forall v ensures Hits(h, Matching(query))[v] == |Insertions(h, Matching(query), v)| {
          HitsCounted(h, Matching(query), v);
        }
      }
    }
  }

  /** The listing of a written index. */
  method DumpWritten(h: seq<Entry>) returns (text: Str)
    requires ValidEntries(h) && Fits(BuildIndex(h))
    ensures var rs := Records(BuildIndex(h), []);
            text == Render(rs) && Ordered(rs) && forall k :: ValuesOf(rs, k) == AddAll([], ValuesOf(h, k))
  {
    var file, _ := WriteIndex(h);
    text := Dump.IndexDump(file, false, BuildIndex(h));
    ghost var rs := Records(BuildIndex(h), []);
    RecordsOrdered(BuildIndex(h), []);
    forall k ensures ValuesOf(rs, k) == AddAll([], ValuesOf(h, k)) {
      DumpIsSortedListing(h, k);
    }
  }

  // ----- which indexes can be read

  /** The index of one key of one character: a root with one child. */
  lemma OneKeyTrie(c: Byte, v: Value)
    requires 0 < c < CHILDMAX && ValidValue(v)
    ensures BuildIndex([Entry([c], v)]) == Node([], [], map[c := Node([], [v], map[])])
  {
    var h := [Entry([c], v)];
    assert h[..0] == [] && Build(h[..0]) == EMPTY;
    assert Insert(EMPTY, [c], v) == InsertHere(EMPTY, [c], v);
    assert [c][1..] == [] && EMPTY.kids[c := Node([], [v], map[])] == map[c := Node([], [v], map[])];
  }

  /** One child always fits, however long its texts: they stand behind the last offset. */
  lemma OneChildFits(t: IndexTrie, c: Byte, leaf: IndexTrie)
    requires 0 < c < CHILDMAX && t == Node([], [], map[c := leaf])
    requires leaf.kids == map[] && |leaf.values| < 0x1_0000_0000
    ensures Fits(t) && |FileImage(t)| >= 18 + Total(leaf)
  {
    RangeOf(t, c, c);
    IndexWriter.KidsTotalBefore(t, c);
    KidsTotalUpTo(t, c, CHILDMAX);
    FileParts(t);
  }

  /** One key always fits, even if the file has 2^28 bytes or more. */
  lemma OneKeyFits(c: Byte, text: Str)
    requires 0 < c < CHILDMAX && IsCString(text)
    ensures var t := BuildIndex([Entry([c], Value(text, 0))]); Fits(t) && |FileImage(t)| > |text|
  {
    var t := BuildIndex([Entry([c], Value(text, 0))]);
    OneKeyTrie(c, Value(text, 0));
    LeafSize(t.kids[c], Value(text, 0));
    OneChildFits(t, c, t.kids[c]);
  }

  lemma LeafSize(t: IndexTrie, v: Value)
    requires t == Node([], [v], map[])
    ensures Size(t) == Total(t) == 9 + |v.text|
  {
    NoKids(t, CHILDMAX);
    assert [v][..0] == [] && ValuesSize([v][..0]) == 0;
  }

  /** The index of the keys "a" and "b": a root with two children. */
  lemma TwoKeysTrie(v: Value, w: Value)
    requires ValidValue(v) && ValidValue(w)
    ensures BuildIndex([Entry([97], v), Entry([98], w)])
         == Node([], [], map[97 := Node([], [v], map[]), 98 := Node([], [w], map[])])
  {
    var h := [Entry([97], v), Entry([98], w)];
    OneKeyTrie(97, v);
    assert h[..1] == [Entry([97], v)];
    var t := Build(h[..1]);
    assert Insert(t, [98], w) == InsertHere(t, [98], w);
  }

  lemma TwoKeysLayout(text: Str, t: IndexTrie)
    requires IsCString(text) && t == BuildIndex([Entry([97], Value(text, 0)), Entry([98], Value([], 0))])
    ensures t.kids.Keys == {97, 98} && First(t) == 97 && ChildStart(t, HEADER, 97) == 22
    ensures t.values == [] && t.prefix == []
    ensures ChildStart(t, HEADER, 98) == |text| + 31
    ensures forall c :: c in t.kids ==> t.kids[c].kids == map[] && |t.kids[c].values| == 1
  {
    TwoKeysTrie(Value(text, 0), Value([], 0));
    RangeOf(t, 97, 98);
    IndexWriter.KidsTotalBefore(t, 97);
    LeafSize(t.kids[97], Value(text, 0));
    assert KidsTotal(t, 98) == KidsTotal(t, 97) + Total(t.kids[97]);
  }

  /**
   Two keys fit exactly as long as the second one's node starts below 2^28. With a text just long enough to put it
   there, the stored offset reads as 0, and a reader takes the inserted key "b" for absent.
   */
  lemma TwoKeysFitIff(text: Str)
    requires IsCString(text)
    ensures var t := BuildIndex([Entry([97], Value(text, 0)), Entry([98], Value([], 0))]);
            && (Fits(t) <==> |text| + 31 < OFFSET_LIMIT)
            && |FileImage(t)| >= 22
            && (|text| + 31 == OFFSET_LIMIT ==> WordAt(FileImage(t), 18) % OFFSET_LIMIT == 0)
  {
    var t := BuildIndex([Entry([97], Value(text, 0)), Entry([98], Value([], 0))]);
    TwoKeysLayout(text, t);
    TwoLeavesFit(t);
    FileParts(t);
    TwoKeysWord(FileImage(t), t);
  }

  /** So it is: the search for the inserted key "b" finds nothing in the file, and the one for "a" its text. */
  method SecondKeyLost(text: Str) returns (a: Option<Str>, b: Option<Str>)
    requires IsCString(text) && |text| + 31 == OFFSET_LIMIT
    ensures a == Some(text) && b == None
    ensures Inserted([Entry([97], Value(text, 0)), Entry([98], Value([], 0))], [98])
  {
    var h := [Entry([97], Value(text, 0)), Entry([98], Value([], 0))];
    var file, _ := WriteIndex(h);
    TwoKeysSeen(text, BuildIndex(h));
    a := MmReader.SearchSeen(file, [97], BuildIndex(h));
    b := MmReader.SearchSeen(file, [98], BuildIndex(h));
    assert h[1].key == [98];
  }

  lemma TwoKeysSeen(text: Str, t: IndexTrie)
    requires IsCString(text) && |text| + 31 == OFFSET_LIMIT
    requires t == BuildIndex([Entry([97], Value(text, 0)), Entry([98], Value([], 0))])
    ensures t.values == []
    ensures MmReader.Searchable(t, HEADER, [97]) && MmReader.Seen(t, HEADER, [97]) == [Value(text, 0)]
    ensures MmReader.Searchable(t, HEADER, [98]) && MmReader.Seen(t, HEADER, [98]) == []
  {
    TwoKeysTrie(Value(text, 0), Value([], 0));
    TwoKeysLayout(text, t);
    assert [97][0..] == [97] && [97][1..] == [] && [98][0..] == [98];
    assert MmReader.Seen(t.kids[97], 22, []) == [Value(text, 0)] && MmReader.Searchable(t.kids[97], 22, []);
  }

  lemma TwoLeavesFit(t: IndexTrie)
    requires t.kids.Keys == {97, 98} && t.values == [] && ChildStart(t, HEADER, 97) == 22
    requires forall c :: c in t.kids ==> t.kids[c].kids == map[] && |t.kids[c].values| == 1
    ensures Fits(t) <==> ChildStart(t, HEADER, 98) < OFFSET_LIMIT
  {
    assert 97 in t.kids && 98 in t.kids;
    LeafFits(t.kids[97], ChildStart(t, HEADER, 97));
    LeafFits(t.kids[98], ChildStart(t, HEADER, 98));
    assert forall c :: c in t.kids ==> c == 97 || c == 98;
  }

  lemma LeafFits(t: IndexTrie, p: nat)
    requires t.kids == map[] && |t.values| == 1
    ensures Addressable(t, p) <==> p < OFFSET_LIMIT
  {
  }

  lemma TwoKeysWord(file: Str, t: IndexTrie)
    requires HEADER in Images(file, t) && t.kids.Keys == {97, 98} && t.prefix == []
    ensures |file| >= 22
    ensures ChildStart(t, HEADER, 98) == OFFSET_LIMIT ==> WordAt(file, 18) % OFFSET_LIMIT == 0
  {
    assert 97 in t.kids && 98 in t.kids;
    RangeOf(t, 97, 98);
    TableWord(file, HEADER, t, 98);
    if ChildStart(t, HEADER, 98) == OFFSET_LIMIT {
      NoLowBits(t.kids[98]);
    }
  }

  lemma NoLowBits(t: Trie)
    ensures Tagged(OFFSET_LIMIT, t) % OFFSET_LIMIT == 0
  {
  }

  // ----- where the readers differ

  /** Two values of one priority under one key: the later stands in front. */
  lemma SameKeyTrie(c: Byte, v: Value, w: Value)
    requires 0 < c < CHILDMAX && ValidValue(v) && ValidValue(w) && v.priority == w.priority
    ensures BuildIndex([Entry([c], v), Entry([c], w)]) == Node([], [], map[c := Node([], [w, v], map[])])
  {
    var h := [Entry([c], v), Entry([c], w)];
    OneKeyTrie(c, v);
    assert h[..1] == [Entry([c], v)];
    var t := Build(h[..1]);
    assert [c][0..] == [c] && [c][1..] == [] && AddValue([v], w) == [w, v];
    assert Insert(t.kids[c], [], w) == Node([], [w, v], map[]);
    assert t.kids[c := Node([], [w, v], map[])] == map[c := Node([], [w, v], map[])];
  }

  /** ... the mapped reader finds the second text, the stream reader the first. */
  method ReadersDiffer(c: Byte, first: Str, second: Str, priority: nat)
    returns (mapped: Option<Str>, stream: Option<Str>)
    requires 0 < c < CHILDMAX && IsCString(first) && IsCString(second) && priority < 0x1_0000_0000
    ensures mapped == Some(second) && stream == Some(first)
  {
    var h := [Entry([c], Value(first, priority)), Entry([c], Value(second, priority))];
    SameKeyFits(c, Value(first, priority), Value(second, priority));
    TwoValues(h, [c], Value(first, priority), Value(second, priority));
    ghost var latest, earliest;
    mapped, latest := SearchWritten(h, [c]);
    stream, earliest := SearchWrittenFile(h, [c]);
    FirstAndLast(ValuesOf(h, [c]), earliest, latest);
  }

  lemma SameKeyFits(c: Byte, v: Value, w: Value)
    requires 0 < c < CHILDMAX && ValidValue(v) && ValidValue(w) && v.priority == w.priority
    ensures ValidEntries([Entry([c], v), Entry([c], w)]) && Fits(BuildIndex([Entry([c], v), Entry([c], w)]))
  {
    var t := BuildIndex([Entry([c], v), Entry([c], w)]);
    SameKeyTrie(c, v, w);
    OneChildFits(t, c, t.kids[c]);
  }

  lemma FirstAndLast(vs: seq<Value>, earliest: nat, latest: nat)
    requires |vs| == 2 && vs[0].priority == vs[1].priority
    requires FileReader.IsEarliest(vs, earliest) && LatestOfLeast(vs, latest)
    ensures earliest == 0 && latest == 1
  {
    assert vs[0].priority <= vs[1].priority <= vs[0].priority;
  }

  lemma TwoValues(h: seq<Entry>, key: Str, v: Value, w: Value)
    requires h == [Entry(key, v), Entry(key, w)]
    ensures ValuesOf(h, key) == [v, w] && Inserted(h, key)
  {
    assert h[..1] == [Entry(key, v)] && h[..1][..0] == [];
    assert ValuesOf(h[..1], key) == [v];
    assert h[0].key == key;
  }
}
