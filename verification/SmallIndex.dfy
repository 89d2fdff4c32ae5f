/**
 A small index down to its bytes: the keys "c" and "cdx", which take a node of each kind. The file that is written for
 them holds the magic number and every flag of the format.
 */
module SmallIndex {
  import opened Text
  import opened PatriciaTrie
  import opened Layout
  import opened Listing
  import IndexWriter
  import IndexLaws
  import Dump

  /** The insertions: an empty text under the first key, `text` under the second. */
  function SmallEntries(c: Byte, d: Byte, x: Byte, text: Str): seq<Entry> {
    [Entry([c], Value([], 0)), Entry([c, d, x], Value(text, 0x0102_0304))]
  }

  function Leaf(x: Byte, text: Str): Trie {
    Node([x], [Value(text, 0x0102_0304)], map[])
  }

  function Inner(d: Byte, x: Byte, text: Str): Trie {
    Node([], [Value([], 0)], map[d := Leaf(x, text)])
  }

  function Root(c: Byte, d: Byte, x: Byte, text: Str): Trie {
    Node([], [], map[c := Inner(d, x, text)])
  }

  lemma SmallTrie(c: Byte, d: Byte, x: Byte, text: Str)
    requires 0 < c < CHILDMAX && 0 < d < CHILDMAX && 0 < x < CHILDMAX && IsCString(text)
    ensures ValidEntries(SmallEntries(c, d, x, text))
    ensures BuildIndex(SmallEntries(c, d, x, text)) == Root(c, d, x, text)
  {
    var h, v, w := SmallEntries(c, d, x, text), Value([], 0), Value(text, 0x0102_0304);
    IndexLaws.OneKeyTrie(c, v);
    assert h[..1] == [Entry([c], v)];
    var t, inner := Build(h[..1]), Node([], [v], map[]);
    var key := [c, d, x];
    assert key[0..] == key && key[1..] == [d, x] && [d, x][1..] == [x];
    assert Insert(inner, [d, x], w) == InsertHere(inner, [d, x], w) == Inner(d, x, text);
    assert Insert(t, key, w) == t.(kids := t.kids[c := Insert(inner, [d, x], w)]);
  }

  // ----- nodes with one child or none

  lemma {:induction false} OneKidImage(t: IndexTrie, offset: nat, c: int, k: int, kid: Str)
    requires c in t.kids && (forall d :: d in t.kids ==> d == c) && 0 <= k <= CHILDMAX
    requires kid == Image(t.kids[c], ChildStart(t, offset, c))
    ensures KidsImage(t, offset, k) == if k <= c then [] else kid
    decreases k
  {
    if k > 0 {
      OneKidImage(t, offset, c, k - 1, kid);
      if k - 1 == c {
        assert KidsImage(t, offset, k) == [] + kid;
      } else {
        assert KidsImage(t, offset, k) == KidsImage(t, offset, k - 1) + [];
      }
    }
  }

  lemma {:induction false} OneKid(t: IndexTrie, offset: nat, c: int)
    requires t.kids.Keys == {c}
    ensures 0 < c < CHILDMAX && ChildStart(t, offset, c) == offset + Size(t)
    ensures Image(t, offset)
         == PrefixImage(t) + ([c, c] + BigEndian(Tagged(offset + Size(t), t.kids[c]))) + ValueList(t.values)
          + Image(t.kids[c], offset + Size(t))
  {
    assert c in t.kids;
    RangeOf(t, c, c);
    IndexWriter.KidsTotalBefore(t, c);
    OneKidImage(t, offset, c, CHILDMAX, Image(t.kids[c], offset + Size(t)));
    OneWord(t, offset, c);
  }

  lemma {:induction false} OneWord(t: IndexTrie, offset: nat, c: int)
    requires t.kids.Keys == {c} && First(t) == Last(t) == c && ChildStart(t, offset, c) == offset + Size(t)
    ensures ChildTable(t, offset) == [c, c] + BigEndian(Tagged(offset + Size(t), t.kids[c]))
  {
    assert ChildWords(t, offset, c) == [];
    assert ChildWords(t, offset, c + 1) == [] + BigEndian(ChildWord(t, offset, c));
  }

  lemma {:induction false} OneValue(v: Value)
    requires v.priority >= 0
    ensures ValueList([v]) == [0, 0, 0, 1] + ValueImage(v) && ValuesSize([v]) == 5 + |v.text|
  {
    assert [v][..0] == [] && ValuesImage([]) == [] && ValuesSize([]) == 0;
    assert ValuesImage([v]) == [] + ValueImage(v);
  }

  lemma {:induction false} LeafImage(t: IndexTrie, x: Byte, text: Str, offset: nat)
    requires t == Leaf(x, text)
    ensures Image(t, offset) == [x, 0, 0, 0, 0, 1, 1, 2, 3, 4] + text + [0]
  {
    LeafValues(text);
    NoKidsImage(t, offset, CHILDMAX);
    assert ChildTable(t, offset) == [];
    assert PrefixImage(t) == [x, 0];
    LeafBytes(x, text);
  }

  lemma LeafBytes(x: Byte, text: Str)
    ensures [x, 0] + [] + ([0, 0, 0, 1, 1, 2, 3, 4] + text + [0]) + [] == [x, 0, 0, 0, 0, 1, 1, 2, 3, 4] + text + [0]
  {
  }

  lemma LeafValues(text: Str)
    ensures ValueList([Value(text, 0x0102_0304)]) == [0, 0, 0, 1, 1, 2, 3, 4] + text + [0]
  {
    OneValue(Value(text, 0x0102_0304));
    PriorityBytes();
    assert [0, 0, 0, 1] + ([1, 2, 3, 4] + text + [0]) == [0, 0, 0, 1, 1, 2, 3, 4] + text + [0];
  }

  lemma PriorityBytes()
    ensures BigEndian(0x0102_0304) == [1, 2, 3, 4]
  {
  }

  lemma {:induction false} NoKidsImage(t: IndexTrie, offset: nat, k: int)
    requires t.kids == map[] && 0 <= k <= CHILDMAX
    ensures KidsImage(t, offset, k) == []
    decreases k
  {
    if k > 0 {
      NoKidsImage(t, offset, k - 1);
    }
  }

  /** The words of the three nodes, most significant byte first. */
  lemma RootTag()
    ensures BigEndian(TagWord(12, true, false, false)) == [0x20, 0, 0, 12]
  {
    assert TagWord(12, true, false, false) == 0x2000_000C;
  }

  lemma InnerTag()
    ensures BigEndian(TagWord(18, true, false, true)) == [0x60, 0, 0, 18]
  {
    ChildsBit(18, true);
    ValuesBit(0x2000_0012, false, true);
    assert BigEndian(0x6000_0012) == [0x60, 0, 0, 18];
  }

  lemma LeafTag()
    ensures BigEndian(TagWord(33, false, true, true)) == [0xC0, 0, 0, 33]
  {
    PrefixBit(33, true);
    ValuesBit(33, true, true);
    assert BigEndian(0xC000_0021) == [0xC0, 0, 0, 33];
  }

  lemma TagOf(t: Trie, offset: nat, childs: bool, prefix: bool, values: bool)
    requires childs == (t.kids != map[]) && prefix == (t.prefix != []) && values == (t.values != [])
    ensures Tagged(offset, t) == TagWord(offset, childs, prefix, values)
  {
  }

  lemma InnerSize(t: IndexTrie, d: Byte, x: Byte, text: Str)
    requires t == Inner(d, x, text)
    ensures Size(t) == 15 && ValueList(t.values) == [0, 0, 0, 1, 0, 0, 0, 0, 0]
  {
    assert d in t.kids;
    RangeOf(t, d, d);
    OneValue(Value([], 0));
    assert ValueImage(Value([], 0)) == [0, 0, 0, 0, 0];
  }

  lemma {:induction false} InnerImage(t: IndexTrie, d: Byte, x: Byte, text: Str)
    requires t == Inner(d, x, text)
    ensures Image(t, 18) == [d, d, 0xC0, 0, 0, 33] + [0, 0, 0, 1, 0, 0, 0, 0, 0] + Image(t.kids[d], 33)
  {
    InnerSize(t, d, x, text);
    OneKid(t, 18, d);
    TagOf(t.kids[d], 33, false, true, true);
    LeafTag();
    assert [] + ([d, d] + [0xC0, 0, 0, 33]) == [d, d, 0xC0, 0, 0, 33];
  }

  lemma RootSize(t: IndexTrie, c: Byte, d: Byte, x: Byte, text: Str)
    requires t == Root(c, d, x, text)
    ensures Size(t) == 6
  {
    assert c in t.kids;
    RangeOf(t, c, c);
  }

  lemma {:induction false} RootImage(t: IndexTrie, c: Byte, d: Byte, x: Byte, text: Str)
    requires t == Root(c, d, x, text)
    ensures Image(t, 12) == [c, c, 0x60, 0, 0, 18] + Image(t.kids[c], 18)
    ensures BigEndian(Tagged(12, t)) == [0x20, 0, 0, 12]
  {
    RootSize(t, c, d, x, text);
    OneKid(t, 12, c);
    assert c in t.kids && d in t.kids[c].kids;
    TagOf(t.kids[c], 18, true, false, true);
    TagOf(t, 12, true, false, false);
    RootTag();
    InnerTag();
    assert [] + ([c, c] + [0x60, 0, 0, 18]) + [] == [c, c, 0x60, 0, 0, 18];
  }

  /** Header, root, the node of "c" and the node of "cdx". */
  function SmallBytes(c: Byte, d: Byte, x: Byte, text: Str): Str {
    [0xB0, 0x07, 0xF4, 0x57] + [0, 2, 0, 1] + [0x20, 0, 0, 12]
    + ([c, c, 0x60, 0, 0, 18]
    + ([d, d, 0xC0, 0, 0, 33] + [0, 0, 0, 1, 0, 0, 0, 0, 0]
    + ([x, 0, 0, 0, 0, 1, 1, 2, 3, 4] + text + [0])))
  }

  lemma {:induction false} SmallImage(t: IndexTrie, c: Byte, d: Byte, x: Byte, text: Str)
    requires t == Root(c, d, x, text)
    ensures FileImage(t) == SmallBytes(c, d, x, text)
  {
    RootImage(t, c, d, x, text);
    InnerImage(t.kids[c], d, x, text);
    LeafImage(t.kids[c].kids[d], x, text, 33);
    HeaderBytes();
  }

  lemma HeaderBytes()
    ensures BigEndian(MAGIC) == [0xB0, 0x07, 0xF4, 0x57] && BigEndian(VERSION) == [0, 2, 0, 1]
  {
  }

  /** The insertions on the heap and the write give these bytes. */
  method WriteSmall(c: Byte, d: Byte, x: Byte, text: Str) returns (file: Str)
    requires 0 < c < CHILDMAX && 0 < d < CHILDMAX && 0 < x < CHILDMAX && IsCString(text)
    ensures file == SmallBytes(c, d, x, text)
  {
    SmallTrie(c, d, x, text);
    SmallImage(Root(c, d, x, text), c, d, x, text);
    var duplicates;
    file, duplicates := IndexLaws.WriteIndex(SmallEntries(c, d, x, text));
  }

  // ----- its listing

  lemma {:induction false} OneKidRecords(t: IndexTrie, at: Str, c: int, k: int, kid: seq<Entry>)
    requires c in t.kids && (forall d :: d in t.kids ==> d == c) && 0 <= k <= CHILDMAX
    requires kid == Records(t.kids[c], at + [c])
    ensures KidRecords(t, at, k) == if k <= c then [] else kid
    decreases k
  {
    if k > 0 {
      OneKidRecords(t, at, c, k - 1, kid);
      if k - 1 == c {
        assert KidRecords(t, at, k) == [] + kid;
      } else {
        assert KidRecords(t, at, k) == KidRecords(t, at, k - 1) + [];
      }
    }
  }

  lemma {:induction false} NoKidRecords(t: IndexTrie, at: Str, k: int)
    requires t.kids == map[] && 0 <= k <= CHILDMAX
    ensures KidRecords(t, at, k) == []
    decreases k
  {
    if k > 0 {
      NoKidRecords(t, at, k - 1);
    }
  }

  lemma {:induction false} LeafRecords(t: IndexTrie, path: Str, at: Str, v: Value)
    requires t.kids == map[] && t.values == [v] && at == path + t.prefix
    ensures Records(t, path) == [Entry(at, v)]
  {
    NoKidRecords(t, at, CHILDMAX);
    assert OwnRecords(at, [v]) + [] == [Entry(at, v)];
  }

  lemma {:induction false} OneKidListed(t: IndexTrie, path: Str, c: int, kid: seq<Entry>)
    requires t.prefix == [] && c in t.kids && (forall d :: d in t.kids ==> d == c)
    requires kid == Records(t.kids[c], path + [c])
    ensures Records(t, path) == OwnRecords(path, t.values) + kid
  {
    assert path + [] == path;
    OneKidRecords(t, path, c, CHILDMAX, kid);
  }

  lemma {:induction false} SmallRecords(t: IndexTrie, c: Byte, d: Byte, x: Byte, text: Str, path: Str)
    requires t == Root(c, d, x, text)
    ensures Records(t, path)
         == [Entry(path + [c], Value([], 0)), Entry(path + [c, d, x], Value(text, 0x0102_0304))]
  {
    assert c in t.kids && d in t.kids[c].kids;
    var first, last := Entry(path + [c], Value([], 0)), Entry(path + [c, d, x], Value(text, 0x0102_0304));
    assert path + [c] + [d] + [x] == path + [c, d, x];
    var inner: IndexTrie := t.kids[c];
    var leaf: IndexTrie := inner.kids[d];
    LeafRecords(leaf, path + [c] + [d], path + [c, d, x], last.value);
    OneKidListed(inner, path + [c], d, [last]);
    assert OwnRecords(path + [c], [first.value]) + [last] == [first, last];
    OneKidListed(t, path, c, [first, last]);
    assert OwnRecords(path, []) + [first, last] == [first, last];
  }

  lemma {:induction false} SmallRender(a: Str, b: Str, text: Str)
    ensures Render([Entry(a, Value([], 0)), Entry(b, Value(text, 0x0102_0304))])
         == a + [32, 10] + (b + [32] + text + [10])
  {
    var first, second := Entry(a, Value([], 0)), Entry(b, Value(text, 0x0102_0304));
    assert [first, second] == [first] + [second];
    FlatMapAppend(Line, [first], [second]);
    FlatMapOne(Line, first);
    FlatMapOne(Line, second);
    assert Line(first) == a + [32, 10];
  }

  lemma {:induction false} SmallAddressable(t: IndexTrie, c: Byte, d: Byte, x: Byte, text: Str)
    requires t == Root(c, d, x, text)
    ensures Layout.Fits(t)
  {
    assert c in t.kids && d in t.kids[c].kids;
    RootSize(t, c, d, x, text);
    InnerSize(t.kids[c], d, x, text);
    OneKid(t, 12, c);
    OneKid(t.kids[c], 18, d);
    IndexLaws.LeafFits(t.kids[c].kids[d], 33);
    assert Addressable(t.kids[c], 18);
  }

  /** What is dumped: a line with the key, a space and the text for each insertion. */
  method DumpSmall(c: Byte, d: Byte, x: Byte, text: Str, aliasPrefix: bool) returns (written: Str)
    requires 0 < c < CHILDMAX && 0 < d < CHILDMAX && 0 < x < CHILDMAX && IsCString(text)
    ensures var alias := if aliasPrefix then Ascii("alias ") else [];
            written == alias + [c] + [32, 10] + (alias + [c, d, x] + [32] + text + [10])
  {
    ghost var t := Root(c, d, x, text);
    SmallTrie(c, d, x, text);
    SmallImage(t, c, d, x, text);
    SmallAddressable(t, c, d, x, text);
    ghost var alias := if aliasPrefix then Ascii("alias ") else [];
    AliasBytes();
    SmallRecords(t, c, d, x, text, alias);
    SmallRender(alias + [c], alias + [c, d, x], text);
    var file := WriteSmall(c, d, x, text);
    written := Dump.IndexDump(file, aliasPrefix, t);
  }

  lemma AliasBytes()
    ensures Dump.ALIAS == Ascii("alias ")
  {
  }
}
