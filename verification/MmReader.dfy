/**
 libkmod's reader of a mapped index file. Nodes are read where the offsets point;
 the ghost arguments `p` and `t` say which subtrie stands there.
 */
module MmReader {
  import opened Text
  import opened PatriciaTrie
  import opened Layout

  /** A node as read: positions point into the file. */
  datatype MmNode = MmNode(prefix: Str, first: int, last: int, children: nat, valueCount: nat, values: nat)

  /** What reading the node of `t` at position `p` gives. */
  ghost function NodeAt(t: IndexTrie, p: nat): MmNode {
    MmNode(
      t.prefix, First(t), Last(t),
      if t.kids != map[] then p + |PrefixImage(t)| + 2 else 0,
      |t.values|,
      if t.values != [] then CountPos(t, p) + 4 else 0)
  }

  /** The node is the one of `t` at `p`. */
  ghost predicate Reads(node: MmNode, t: IndexTrie, p: nat) {
    forall k :: Asked(k) ==> node == NodeAt(t, p)
  }

  /** read_chars_mm: the string up to the terminator, and the position after it */
  method ReadChars(file: Str, p: nat, ghost s: Str) returns (r: Str, q: nat)
    requires Holds(file, p, s + [0]) && IsCString(s)
    ensures r == s && q == p + |s| + 1
  {
    CharsAt(file, p, s);
    q := p;
    while file[q] != 0
      invariant p <= q <= p + |s|
      decreases p + |s| - q
    {
      q := q + 1;
    }
    r := file[p..q];
    q := q + 1;
  }

  lemma {:induction false} CharsAt(file: Str, p: nat, s: Str)
    requires Holds(file, p, s + [0])
    ensures p + |s| < |file| && file[p + |s|] == 0 && file[p..p + |s|] == s
    ensures forall i :: p <= i < p + |s| ==> file[i] == s[i - p]
  {
    HoldsParts(file, p, s, [0]);
    IsHeld(file, p, s);
    IsHeld(file, p + |s|, [0]);
    assert file[p + |s|] == file[p + |s|..p + |s| + 1][0];
    forall i | p <= i < p + |s| ensures file[i] == s[i - p] {
      assert file[i] == file[p..p + |s|][i - p];
    }
  }

  /** index_mm_read_node */
  method ReadNode(file: Str, offset: nat, ghost p: nat, ghost t: IndexTrie) returns (r: Option<MmNode>)
    requires offset % OFFSET_LIMIT == 0 || (p in Spots(file, t) && offset == Tagged(p, t))
    ensures offset % OFFSET_LIMIT == 0 ==> r == None
    ensures offset % OFFSET_LIMIT != 0 ==> r == if p < |file| then Some(NodeAt(t, p)) else None
  {
    var pos := offset % OFFSET_LIMIT;
    OffsetInside(file, offset, p, t);
    if pos == 0 || pos >= |file| {
      return None;
    }
    NodeParts(file, p, t);
    TaggedParts(p, t);
    var prefix: Str := [];
    if HasFlag(offset, FLAG_PREFIX) {
      prefix, pos := ReadChars(file, pos, t.prefix);
    }
    assert pos == p + |PrefixImage(t)|;
    var ok, first, last, children, next := ReadRange(file, pos, HasFlag(offset, FLAG_CHILDS), p, t);
    if !ok {
      return None;
    }
    var count, values := 0, 0;
    if HasFlag(offset, FLAG_VALUES) {
      count := ReadCount(file, next, p, t);
      values := next + 4;
    }
    r := Some(MmNode(prefix, first, last, children, count, values));
  }

  /** The child range and where its table starts and ends; refuses a range outside the alphabet. */
  method ReadRange(file: Str, pos: nat, childs: bool, ghost p: nat, ghost t: IndexTrie)
    returns (ok: bool, first: int, last: int, children: nat, next: nat)
    requires p in Spots(file, t) && (childs <==> t.kids != map[]) && pos == p + |PrefixImage(t)|
    ensures ok && first == First(t) && last == Last(t)
    ensures children == NodeAt(t, p).children && next == CountPos(t, p)
  {
    NodeParts(file, p, t);
    ok, first, last, children, next := true, CHILDMAX, 0, 0, pos;
    if childs {
      TableHead(file, p, t, pos);
      first, last, children := file[pos], file[pos + 1], pos + 2;
      if first > last || first >= CHILDMAX || last >= CHILDMAX {
        return false, first, last, children, next;
      }
      next := pos + 2 + 4 * (last - first + 1);
    }
  }

  method ReadCount(file: Str, pos: nat, ghost p: nat, ghost t: IndexTrie) returns (count: nat)
    requires p in Spots(file, t) && t.values != [] && pos == CountPos(t, p)
    ensures count == |t.values|
  {
    ValueHead(file, p, t, pos);
    count := WordAt(file, pos);
  }

  /** The parts of a node, by the conditions its flags stand for. */
  lemma {:induction false} NodeParts(file: Str, p: nat, t: IndexTrie)
    requires p in Spots(file, t)
    ensures p < OFFSET_LIMIT && |PrefixImage(t)| == if t.prefix != [] then |t.prefix| + 1 else 0
    ensures t.prefix != [] ==> Holds(file, p, t.prefix + [0])
    ensures |ChildTable(t, p)| == if t.kids != map[] then 2 + 4 * (Last(t) - First(t) + 1) else 0
    ensures t.kids == map[] ==> First(t) == CHILDMAX && Last(t) == 0
  {
    SpotParts(file, p, t);
    ChildTableSize(t, p);
    RangeOf(t, 0, 0);
  }

  lemma {:induction false} OffsetInside(file: Str, offset: nat, p: nat, t: IndexTrie)
    requires offset % OFFSET_LIMIT == 0 || (p in Spots(file, t) && offset == Tagged(p, t))
    ensures offset % OFFSET_LIMIT != 0 ==> offset % OFFSET_LIMIT == p > 0
  {
    if offset % OFFSET_LIMIT != 0 {
      SpotParts(file, p, t);
      TaggedParts(p, t);
    }
  }

  lemma {:induction false} TableHead(file: Str, p: nat, t: IndexTrie, q: nat)
    requires p in Spots(file, t) && t.kids != map[] && q == p + |PrefixImage(t)|
    ensures q + 2 <= |file| && file[q] == First(t) && file[q + 1] == Last(t)
    ensures First(t) <= Last(t) < CHILDMAX
  {
    SpotIsImage(file, p, t);
    HoldsTable(file, p, t, q);
    TwoBytes(file, q, RangeBytes(First(t), Last(t)));
  }

  lemma {:induction false} TwoBytes(file: Str, q: nat, b: Str)
    requires |b| == 2 && Holds(file, q, b)
    ensures q + 2 <= |file| && file[q] == b[0] && file[q + 1] == b[1]
  {
    IsHeld(file, q, b);
    assert file[q] == file[q..q + 2][0] && file[q + 1] == file[q..q + 2][1];
  }

  lemma {:induction false} ValueHead(file: Str, p: nat, t: IndexTrie, q: nat)
    requires p in Spots(file, t) && t.values != [] && q == CountPos(t, p)
    ensures q + 4 <= |file| && WordAt(file, q) == |t.values| && Holds(file, q + 4, ValuesImage(t.values))
  {
    CountFitsWord(file, p, t);
    SpotIsImage(file, p, t);
    CountWord(file, p, t);
  }

  lemma {:induction false} CountFitsWord(file: Str, p: nat, t: IndexTrie)
    requires p in Spots(file, t)
    ensures |t.values| < 0x1_0000_0000 && |t.values| % 0x1_0000_0000 == |t.values|
  {
    SpotParts(file, p, t);
  }

  /** The child on arc `ch`, if any, can be read, or its offset is taken for none at all. */
  predicate Followable(t: IndexTrie, p: nat, ch: int) {
    ch in t.kids ==>
      var start := ChildStart(t, p, ch);
      start % OFFSET_LIMIT == 0 || (start < OFFSET_LIMIT && |t.kids[ch].values| < 0x1_0000_0000)
  }

  /** index_mm_readchild */
  method ReadSlot(file: Str, node: MmNode, ch: int, ghost p: nat, ghost t: IndexTrie) returns (r: Option<MmNode>)
    requires p in Spots(file, t) && node == NodeAt(t, p) && 0 <= ch < 256 && Followable(t, p, ch)
    ensures ch !in t.kids || ChildStart(t, p, ch) % OFFSET_LIMIT == 0 ==> r == None
    ensures ch in t.kids && ChildStart(t, p, ch) % OFFSET_LIMIT != 0 ==>
      r == Some(NodeAt(t.kids[ch], ChildStart(t, p, ch)))
  {
    r := None;
    ArcRange(t, ch);
    if node.first <= ch <= node.last {
      ChildPos(t, p, ch);
      r := ReadTarget(file, node.children + 4 * (ch - node.first), ch, p, t);
    }
  }

  /** ... through the word at position `pos` */
  method ReadTarget(file: Str, pos: nat, ghost ch: int, ghost p: nat, ghost t: IndexTrie) returns (r: Option<MmNode>)
    requires p in Spots(file, t) && First(t) <= ch <= Last(t) && t.kids != map[] && Followable(t, p, ch)
    requires pos == WordPos(t, p, ch)
    ensures r == if ch in t.kids && ChildStart(t, p, ch) % OFFSET_LIMIT != 0
                 then Some(NodeAt(t.kids[ch], ChildStart(t, p, ch))) else None
  {
    ghost var q, kid := ChildTarget(file, p, t, ch);
    r := ReadNode(file, WordAt(file, pos), q, kid);
  }

  lemma {:induction false} ArcRange(t: IndexTrie, ch: int)
    ensures ch in t.kids ==> First(t) <= ch <= Last(t)
    ensures First(t) <= ch <= Last(t) ==> t.kids != map[]
  {
    RangeOf(t, 0, 0);
  }

  lemma {:induction false} ChildPos(t: IndexTrie, p: nat, ch: int)
    requires First(t) <= ch && t.kids != map[]
    ensures NodeAt(t, p).children + 4 * (ch - First(t)) == WordPos(t, p, ch)
  {
  }

  /** Where the word for an arc in the child range points. */
  lemma {:induction false} ChildTarget(file: Str, p: nat, t: IndexTrie, ch: int) returns (q: nat, kid: IndexTrie)
    requires p in Spots(file, t) && First(t) <= ch <= Last(t) && t.kids != map[] && Followable(t, p, ch)
    ensures WordPos(t, p, ch) + 4 <= |file|
    ensures var w := WordAt(file, WordPos(t, p, ch));
            if ch in t.kids && ChildStart(t, p, ch) % OFFSET_LIMIT != 0 then
              w % OFFSET_LIMIT != 0 && w == Tagged(q, kid) && q in Spots(file, kid) && q < |file|
              && kid == t.kids[ch] && q == ChildStart(t, p, ch)
            else w % OFFSET_LIMIT == 0
  {
    SpotIsImage(file, p, t);
    TableWord(file, p, t, ch);
    q, kid := p, t;
    if ch in t.kids {
      q, kid := ChildStart(t, p, ch), t.kids[ch];
      KidSpot(file, p, t, ch);
      if q % OFFSET_LIMIT != 0 {
        TaggedParts(q, kid);
      } else {
        TaggedRoot(q, kid);
      }
    }
  }

  /** A child that starts within reach can be read; it has bytes of its own. */
  lemma {:induction false} KidSpot(file: Str, p: nat, t: IndexTrie, c: int)
    requires p in Spots(file, t) && c in t.kids
    ensures 0 < ChildStart(t, p, c) < |file|
    ensures ChildStart(t, p, c) < OFFSET_LIMIT && |t.kids[c].values| < 0x1_0000_0000 ==>
      ChildStart(t, p, c) in Spots(file, t.kids[c])
  {
    var q := ChildStart(t, p, c);
    IsSpot(file, p, t);
    ImageChild(file, p, t, c);
    ImageParts(file, q, t.kids[c]);
    NoBytes(t.kids[c]);
    IsSpot(file, q, t.kids[c]);
  }

  /** ... in a file whose nodes are all within reach */
  method ReadChild(file: Str, node: MmNode, ch: int, ghost p: nat, ghost t: IndexTrie) returns (r: Option<MmNode>)
    requires p in Places(file, t) && node == NodeAt(t, p) && 0 <= ch < 256
    ensures ch !in t.kids ==> r == None
    ensures ch in t.kids ==> r == Some(NodeAt(t.kids[ch], ChildStart(t, p, ch)))
  {
    WithinReach(file, p, t, ch);
    r := ReadSlot(file, node, ch, p, t);
  }

  lemma {:induction false} WithinReach(file: Str, p: nat, t: IndexTrie, ch: int)
    requires p in Places(file, t)
    ensures Followable(t, p, ch) && (ch in t.kids ==> ChildStart(t, p, ch) % OFFSET_LIMIT != 0)
  {
    if ch in t.kids {
      PlaceKid(file, p, t, ch);
      SpotBounds(file, ChildStart(t, p, ch), t.kids[ch]);
    }
  }

  /** A child has bytes of its own, inside the file. */
  lemma {:induction false} KidPlace(file: Str, p: nat, t: IndexTrie, c: int)
    requires p in Places(file, t) && c in t.kids
    ensures 0 < c < CHILDMAX
    ensures ChildStart(t, p, c) in Places(file, t.kids[c])
    ensures 0 < ChildStart(t, p, c) < |file| && ChildStart(t, p, c) < OFFSET_LIMIT
  {
    PlaceKid(file, p, t, c);
    SpotParts(file, ChildStart(t, p, c), t.kids[c]);
    NoBytes(t.kids[c]);
  }

  // ----- opening

  /** index_mm_open: a file long enough for the header, with the magic number and major version 2 */
  method Open(file: Str) returns (root: Option<nat>)
    ensures root.Some? <==> |file| >= HEADER && WordAt(file, 0) == MAGIC && WordAt(file, 4) / 0x1_0000 == 2
    ensures root.Some? ==> root.value == WordAt(file, 8)
  {
    if |file| < HEADER {
      return None;
    }
    var magic, version := WordAt(file, 0), WordAt(file, 4);
    if magic != MAGIC || version / 0x1_0000 != 2 {
      return None;
    }
    root := Some(WordAt(file, 8));
  }

  /** Open and read the root; no root in a file without a trie. */
  method OpenRoot(file: Str, ghost t: IndexTrie) returns (r: Option<MmNode>)
    requires |t.values| < 0x1_0000_0000 && file == FileImage(t)
    ensures HEADER in Spots(file, t) && (Fits(t) ==> HEADER in Places(file, t))
    ensures t == EMPTY ==> r == None
    ensures t != EMPTY ==> r == Some(NodeAt(t, HEADER))
  {
    FileParts(t);
    IsSpot(file, HEADER, t);
    IsPlace(file, HEADER, t);
    NoBytes(t);
    TaggedParts(HEADER, t);
    var root := Open(file);
    assert root.Some?;
    r := ReadNode(file, root.value, HEADER, t);
  }

  // ----- exact search

  /** The search result: the text of the first value. */
  function FirstText(vs: seq<Value>): Option<Str> {
    if vs == [] then None else Some(vs[0].text)
  }

  method HasPrefix(key: Str, prefix: Str) returns (b: bool)
    ensures b <==> prefix <= key
  {
    var j := 0;
    while j < |prefix|
      invariant j <= |prefix| && j <= |key| && prefix[..j] == key[..j]
    {
      if j == |key| || prefix[j] != key[j] {
        return false;
      }
      j := j + 1;
    }
    return true;
  }

  /** read_value_mm: the value at position `pos`, and the position after it */
  method ReadValue(file: Str, pos: nat, ghost v: Value) returns (r: Value, next: nat)
    requires ValidValue(v) && Holds(file, pos, ValueImage(v))
    ensures r == v && next == pos + ValueSize(v)
  {
    ValueParts(file, pos, v);
    var priority := WordAt(file, pos);
    var text;
    text, next := ReadChars(file, pos + 4, v.text);
    r := Value(text, priority);
  }

  lemma {:induction false} ValueParts(file: Str, pos: nat, v: Value)
    requires ValidValue(v) && Holds(file, pos, ValueImage(v))
    ensures pos + 4 <= |file| && WordAt(file, pos) == v.priority && Holds(file, pos + 4, v.text + [0])
  {
    assert ValueImage(v) == BigEndian(v.priority) + (v.text + [0]);
    HoldsParts(file, pos, BigEndian(v.priority), v.text + [0]);
    HoldsWord(file, pos, v.priority);
  }

  /** The values of the node of `t`, by position. */
  lemma {:induction false} NodeValue(file: Str, p: nat, t: IndexTrie, i: nat, at: nat, v: Value)
    requires p in Spots(file, t) && i < |t.values| && v == t.values[i]
    requires at == NodeAt(t, p).values + ValuesSize(t.values[..i])
    ensures ValidValue(v) && Holds(file, at, ValueImage(v))
  {
    ValueHead(file, p, t, CountPos(t, p));
    ValuesStored(file, CountPos(t, p) + 4, t.values, i, at, v);
  }

  lemma {:induction false} ValuesStored(file: Str, q: nat, vs: seq<Value>, i: nat, at: nat, v: Value)
    requires ValidValues(vs) && Holds(file, q, ValuesImage(vs))
    requires i < |vs| && at == q + ValuesSize(vs[..i]) && v == vs[i]
    ensures ValidValue(v) && Holds(file, at, ValueImage(v))
  {
    HoldsValue(file, q, vs, i);
  }

  /** Where the i-th value of the node of `t` at `p` stands. */
  ghost function ValuePos(t: IndexTrie, p: nat, i: nat): nat
    requires i <= |t.values|
  {
    NodeAt(t, p).values + ValuesSize(t.values[..i])
  }

  lemma {:induction false} ValueAt(file: Str, p: nat, t: IndexTrie, i: nat)
    requires p in Spots(file, t) && i < |t.values|
    ensures ValidValue(t.values[i]) && Holds(file, ValuePos(t, p, i), ValueImage(t.values[i]))
    ensures ValuePos(t, p, i + 1) == ValuePos(t, p, i) + ValueSize(t.values[i])
  {
    NodeValue(file, p, t, i, ValuePos(t, p, i), t.values[i]);
    SizeNext(t.values, i);
  }

  lemma {:induction false} SizeNext(vs: seq<Value>, i: nat)
    requires i < |vs|
    ensures ValuesSize(vs[..i + 1]) == ValuesSize(vs[..i]) + ValueSize(vs[i])
  {
    assert vs[..i + 1][..i] == vs[..i];
  }

  /** The text of the node's first value. */
  method FirstValue(file: Str, node: MmNode, ghost p: nat, ghost t: IndexTrie) returns (r: Option<Str>)
    requires p in Spots(file, t) && node == NodeAt(t, p)
    ensures r == FirstText(t.values)
  {
    if node.valueCount == 0 {
      return None;
    }
    ghost var v := t.values[0];
    FirstStored(file, p, t, node.values, v);
    var text, _ := ReadChars(file, node.values + 4, v.text);
    r := Some(text);
  }

  lemma {:induction false} FirstStored(file: Str, p: nat, t: IndexTrie, at: nat, v: Value)
    requires p in Spots(file, t) && t.values != [] && v == t.values[0] && at == NodeAt(t, p).values
    ensures IsCString(v.text) && Holds(file, at + 4, v.text + [0])
  {
    assert ValuesSize(t.values[..0]) == 0;
    NodeValue(file, p, t, 0, at, v);
    ValueParts(file, at, v);
  }

  /** What a search sees: a child whose offset reads as 0 is taken for absent. */
  function Seen(t: IndexTrie, p: nat, key: Str): seq<Value>
    decreases |key|
  {
    if !(t.prefix <= key) then []
    else
      var rest := key[|t.prefix|..];
      if rest == [] then t.values
      else if rest[0] !in t.kids || ChildStart(t, p, rest[0]) % OFFSET_LIMIT == 0 then []
      else Seen(t.kids[rest[0]], ChildStart(t, p, rest[0]), rest[1..])
  }

  /** Every offset on the way of the key can be followed. */
  predicate Searchable(t: IndexTrie, p: nat, key: Str)
    decreases |key|
  {
    t.prefix <= key ==>
      var rest := key[|t.prefix|..];
      rest != [] ==>
        && Followable(t, p, rest[0])
        && (rest[0] in t.kids && ChildStart(t, p, rest[0]) % OFFSET_LIMIT != 0 ==>
            Searchable(t.kids[rest[0]], ChildStart(t, p, rest[0]), rest[1..]))
  }

  /** In a file whose nodes are all within reach every key can be searched for, and what is seen is what is there. */
  lemma {:induction false} AllSeen(t: IndexTrie, p: nat, key: Str)
    requires Addressable(t, p) && p > 0
    ensures Searchable(t, p, key) && Seen(t, p, key) == Lookup(t, key)
    decreases |key|
  {
    if t.prefix <= key {
      var rest := key[|t.prefix|..];
      if rest != [] && rest[0] in t.kids {
        AllSeen(t.kids[rest[0]], ChildStart(t, p, rest[0]), rest[1..]);
      }
    }
  }

  /** One node of the walk: the result, or the child to go on with and what is left of the key. */
  method Descend(file: Str, node: MmNode, key: Str, ghost p: nat, ghost t: IndexTrie)
    returns (done: bool, r: Option<Str>, child: Option<MmNode>, rest: Str, ghost q: nat, ghost kid: IndexTrie)
    requires p in Spots(file, t) && node == NodeAt(t, p) && Searchable(t, p, key)
    ensures done ==> r == FirstText(Seen(t, p, key))
    ensures !done ==> |rest| < |key| && (child.None? ==> Seen(t, p, key) == [])
    ensures !done && child.Some? ==>
      && q in Spots(file, kid) && child.value == NodeAt(kid, q)
      && Searchable(kid, q, rest) && Seen(t, p, key) == Seen(kid, q, rest)
  {
    done, r, child, rest, q, kid := true, None, None, [], p, t;
    var b := HasPrefix(key, node.prefix);
    if !b {
      return;
    }
    rest := key[|node.prefix|..];
    if rest == [] {
      r := FirstValue(file, node, p, t);
      return;
    }
    done := false;
    child := ReadSlot(file, node, rest[0], p, t);
    if child.Some? {
      KidSpot(file, p, t, rest[0]);
      q, kid := ChildStart(t, p, rest[0]), t.kids[rest[0]];
    }
    rest := rest[1..];
  }

  /** index_mm_search, in any file that depmod writes, for a key whose way can be followed */
  method SearchSeen(file: Str, key: Str, ghost t: IndexTrie) returns (r: Option<Str>)
    requires file == FileImage(t) && |t.values| < 0x1_0000_0000 && Searchable(t, HEADER, key)
    ensures r == FirstText(Seen(t, HEADER, key))
  {
    var node := OpenRoot(file, t);
    var rest := key;
    ghost var p: nat, cur: IndexTrie := HEADER, t;
    while node.Some?
      invariant node.Some? ==> p in Spots(file, cur) && node.value == NodeAt(cur, p)
      invariant node.Some? ==> Searchable(cur, p, rest) && Seen(t, HEADER, key) == Seen(cur, p, rest)
      invariant node.None? ==> Seen(t, HEADER, key) == []
      decreases node.Some?, |rest|
    {
      var done;
      done, r, node, rest, p, cur := Descend(file, node.value, rest, p, cur);
      if done {
        return;
      }
    }
    r := None;
  }

  /** ... in a file whose nodes are all within reach: the first value of the key, nothing if it was never inserted */
  method Search(file: Str, key: Str, ghost t: IndexTrie) returns (r: Option<Str>)
    requires Fits(t) && file == FileImage(t)
    ensures r == FirstText(Lookup(t, key))
  {
    AllSeen(t, HEADER, key);
    r := SearchSeen(file, key, t);
  }
}
