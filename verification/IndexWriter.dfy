/** depmod's index writer: sizes filled in bottom-up, then a pre-order traversal that emits the bytes. */
module IndexWriter {
  import opened Text
  import opened PatriciaTrie
  import opened Layout
  import opened IndexBuilder

  // ----- sizes

  /** No subtrees on arcs outside the range. */
  lemma {:induction false} KidsTotalBefore(t: IndexTrie, c: int)
    requires 0 <= c <= CHILDMAX && forall d :: d in t.kids ==> c <= d
    ensures KidsTotal(t, c) == 0
    decreases c
  {
    if c > 0 {
      KidsTotalBefore(t, c - 1);
    }
  }

  lemma {:induction false} KidsTotalAfter(t: IndexTrie, c: int)
    requires 0 <= c <= CHILDMAX && forall d :: d in t.kids ==> d < c
    ensures KidsTotal(t, c) == KidsTotal(t, CHILDMAX)
    decreases CHILDMAX - c
  {
    if c < CHILDMAX {
      KidsTotalAfter(t, c + 1);
    }
  }

  method ValuesLength(values: seq<Value>) returns (size: nat)
    ensures size == ValuesSize(values)
  {
    size := 0;
    for i := 0 to |values|
      invariant size == ValuesSize(values[..i])
    {
      assert values[..i + 1][..i] == values[..i];
      size := size + 4 + |values[i].text| + 1;
    }
    assert values[..|values|] == values;
  }

  /** The node's own fields say what `t` says. */
  ghost predicate Fields(n: IndexNode, t: IndexTrie)
    reads n`prefix, n`values, n`first, n`last, n`children
  {
    && n.prefix == t.prefix && n.values == t.values
    && n.first == First(t) && n.last == Last(t)
    && |n.children| == CHILDMAX
    && forall c :: 0 <= c < CHILDMAX ==> (n.children[c] != null <==> c in t.kids)
  }

  /** The nodes below `n` hold the trie `t`. */
  ghost predicate Tree(n: IndexNode, t: IndexTrie, owned: set<IndexNode>)
    reads owned`prefix, owned`values, owned`first, owned`last, owned`children
    decreases t
  {
    && n in owned && Fields(n, t)
    && forall c :: c in t.kids ==> n.children[c] != null && Tree(n.children[c], t.kids[c], owned)
  }

  /** The nodes that head a tree for `t`. */
  ghost function Trees(t: IndexTrie, owned: set<IndexNode>): set<IndexNode>
    reads owned`prefix, owned`values, owned`first, owned`last, owned`children
  {
    set n | n in owned && Tree(n, t, owned)
  }

  lemma Kid(n: IndexNode, t: IndexTrie, owned: set<IndexNode>, c: int)
    requires n in Trees(t, owned) && c in t.kids
    ensures |n.children| == CHILDMAX && 0 < c < CHILDMAX
    ensures n.children[c] != null && n.children[c] in Trees(t.kids[c], owned)
  {
    assert Tree(n, t, owned);
    var x := n.children[c];
    assert Tree(x, t.kids[c], owned) && x in owned;
  }

  lemma Root(n: IndexNode, t: IndexTrie, owned: set<IndexNode>)
    requires n in Trees(t, owned)
    ensures Fields(n, t)
  {
  }

  /** What insertion leaves on the heap is such a tree. */
  lemma {:induction false} IndexIsTree(n: IndexNode, s: Shape, owned: set<IndexNode>)
    requires n == s.node && Holding(Pairs(s), owned) && WellFormed(TrieOf(s))
    ensures Tree(n, TrieOf(s), owned)
    decreases s
  {
    var t := TrieOf(s);
    assert (n, RecordOf(s)) in Pairs(s);
    RangeFields(s);
    forall c | c in t.kids ensures n.children[c] != null && Tree(n.children[c], t.kids[c], owned) {
      KidNodes(s, c);
      IndexIsTree(s.kids[c].node, s.kids[c], owned);
    }
  }

  /** The range in a node's record is the range of its trie. */
  lemma RangeFields(s: Shape)
    requires WellFormed(TrieOf(s))
    ensures RecordOf(s).first == First(TrieOf(s)) && RecordOf(s).last == Last(TrieOf(s))
    ensures s.kids.Keys == TrieOf(s).kids.Keys
    ensures forall c :: c in s.kids ==> TrieOf(s).kids[c] == TrieOf(s.kids[c])
  {
    SameRange(s.kids, TrieOf(s).kids);
  }

  /** The size of the node alone, from its own fields. */
  method OwnSize(n: IndexNode, ghost t: IndexTrie, ghost owned: set<IndexNode>) returns (size: nat)
    requires n in Trees(t, owned)
    ensures size == Size(t)
  {
    Root(n, t, owned);
    RangeOf(t, 0, 0);
    size := 0;
    if n.first < CHILDMAX {
      size := size + 2 + 4 * (n.last - n.first + 1);
    }
    if n.prefix != [] {
      size := size + |n.prefix| + 1;
    }
    if n.values != [] {
      var k := ValuesLength(n.values);
      size := size + 4 + k;
    }
  }

  /** A node stands for one trie only. */
  lemma {:induction false} TreeUnique(n: IndexNode, t: IndexTrie, u: IndexTrie, owned: set<IndexNode>)
    requires n in Trees(t, owned) && n in Trees(u, owned)
    ensures t == u
    decreases t
  {
    Root(n, t, owned);
    Root(n, u, owned);
    forall c | c in t.kids ensures c in u.kids && t.kids[c] == u.kids[c] {
      Kid(n, t, owned, c);
      Kid(n, u, owned, c);
      TreeUnique(n.children[c], t.kids[c], u.kids[c], owned);
    }
    forall c | c in u.kids ensures c in t.kids {
      Kid(n, u, owned, c);
    }
    assert t.kids == u.kids;
  }

  // ----- sizes kept in the nodes

  /** Nodes whose sizes have been calculated, with the tries they stand for. */
  type Sized = map<IndexNode, IndexTrie>

  function ChildAt(n: IndexNode, c: int): IndexNode?
    reads n`children
  {
    if 0 <= c < |n.children| then n.children[c] else null
  }

  /** The children on the arcs below `limit` have been calculated. */
  ghost predicate KidsSized(n: IndexNode, t: IndexTrie, sized: Sized, limit: int)
    reads n`children
  {
    forall c :: c in t.kids && c < limit ==>
      var k := ChildAt(n, c); k != null && k in sized && sized[k] == t.kids[c]
  }

  /** A calculated node stands for its trie, and all nodes below it have been calculated. */
  ghost predicate Closed(n: IndexNode, t: IndexTrie, sized: Sized, owned: set<IndexNode>)
    reads owned`prefix, owned`values, owned`first, owned`last, owned`children
  {
    n in Trees(t, owned) && n in owned && KidsSized(n, t, sized, CHILDMAX)
  }

  ghost function ClosedNodes(sized: Sized, owned: set<IndexNode>): set<IndexNode>
    reads owned`prefix, owned`values, owned`first, owned`last, owned`children
  {
    set n | n in sized && forall k :: Asked(k) ==> Closed(n, sized[n], sized, owned)
  }

  ghost predicate AllClosed(sized: Sized, owned: set<IndexNode>)
    reads owned`prefix, owned`values, owned`first, owned`last, owned`children
  {
    ClosedNodes(sized, owned) == sized.Keys
  }

  /** All calculated nodes, and with them all nodes below them, hold their sizes. */
  ghost predicate Calculated(sized: Sized, owned: set<IndexNode>)
    reads owned
  {
    && AllClosed(sized, owned)
    && forall n :: n in sized ==> n in owned && n.size == Size(sized[n]) && n.total == Total(sized[n])
  }

  lemma IsClosed(n: IndexNode, sized: Sized, owned: set<IndexNode>)
    requires AllClosed(sized, owned) && n in sized
    ensures Closed(n, sized[n], sized, owned)
  {
    assert n in ClosedNodes(sized, owned) && Asked(0);
  }

  /** Nothing calculated is lost. */
  ghost predicate Extends(sized: Sized, more: Sized) {
    forall n :: n in sized ==> n in more && more[n] == sized[n]
  }

  lemma KidsStaySized(n: IndexNode, t: IndexTrie, sized: Sized, more: Sized, limit: int)
    requires KidsSized(n, t, sized, limit) && Extends(sized, more)
    ensures KidsSized(n, t, more, limit)
  {
  }

  /** The node's own sizes, stored when those below it are known. */
  method StoreSizes(node: IndexNode, size: nat, total: nat, ghost t: IndexTrie, ghost owned: set<IndexNode>,
                    ghost sized: Sized)
    returns (ghost more: Sized)
    requires node in Trees(t, owned) && size == Size(t) && total == Total(t)
    requires Calculated(sized, owned) && KidsSized(node, t, sized, CHILDMAX)
    modifies node`size, node`total
    ensures Calculated(more, owned) && Extends(sized, more) && node in more && more[node] == t
  {
    more := sized[node := t];
    OnlyTrie(node, t, owned, sized);
    OneMoreClosed(node, t, owned, sized, more);
    SetSizes(node, size, total, more, owned);
  }

  /** What a node stands for does not depend on its sizes. */
  method SetSizes(node: IndexNode, size: nat, total: nat, ghost sized: Sized, ghost owned: set<IndexNode>)
    modifies node`size, node`total
    ensures node.size == size && node.total == total && ClosedNodes(sized, owned) == old(ClosedNodes(sized, owned))
  {
    node.size, node.total := size, total;
  }

  lemma OneMoreClosed(node: IndexNode, t: IndexTrie, owned: set<IndexNode>, sized: Sized, more: Sized)
    requires node in Trees(t, owned) && AllClosed(sized, owned) && KidsSized(node, t, sized, CHILDMAX)
    requires more == sized[node := t] && Extends(sized, more)
    ensures AllClosed(more, owned)
  {
    forall n | n in more ensures Closed(n, more[n], more, owned) {
      if n in sized {
        IsClosed(n, sized, owned);
      }
      KidsStaySized(n, more[n], sized, more, CHILDMAX);
    }
  }

  lemma OnlyTrie(node: IndexNode, t: IndexTrie, owned: set<IndexNode>, sized: Sized)
    requires node in Trees(t, owned) && Calculated(sized, owned)
    ensures node in sized ==> sized[node] == t
  {
    if node in sized {
      IsClosed(node, sized, owned);
      TreeUnique(node, t, sized[node], owned);
    }
  }

  /** The sizes below one slot of the child array. */
  method CalculateSlot(node: IndexNode, c: nat, ghost t: IndexTrie, ghost owned: set<IndexNode>, ghost sized: Sized)
    returns (total: nat, ghost more: Sized)
    requires node in Trees(t, owned) && c < CHILDMAX && Calculated(sized, owned) && KidsSized(node, t, sized, c)
    modifies owned`size, owned`total
    ensures KidsTotal(t, c + 1) == KidsTotal(t, c) + total
    ensures Calculated(more, owned) && Extends(sized, more) && KidsSized(node, t, more, c + 1)
    decreases t, 0
  {
    total, more := 0, sized;
    Root(node, t, owned);
    if node.children[c] != null {
      Kid(node, t, owned, c);
      total, more := CalculateSize(node.children[c], t.kids[c], owned, sized);
      KidsStaySized(node, t, sized, more, c);
    }
  }

  /** The sizes below a range of slots. */
  method CalculateRange(node: IndexNode, from: nat, end: nat, ghost t: IndexTrie, ghost owned: set<IndexNode>,
                        ghost sized: Sized)
    returns (total: nat, ghost more: Sized)
    requires node in Trees(t, owned) && from <= end <= CHILDMAX
    requires Calculated(sized, owned) && KidsSized(node, t, sized, from)
    modifies owned`size, owned`total
    ensures KidsTotal(t, end) == KidsTotal(t, from) + total
    ensures Calculated(more, owned) && Extends(sized, more) && KidsSized(node, t, more, end)
    decreases t, 1
  {
    total, more := 0, sized;
    for c := from to end
      invariant KidsTotal(t, c) == KidsTotal(t, from) + total
      invariant Calculated(more, owned) && Extends(sized, more) && KidsSized(node, t, more, c)
    {
      var x;
      x, more := CalculateSlot(node, c, t, owned, more);
      total := total + x;
    }
  }

  /** The sizes below all slots. */
  method CalculateKids(node: IndexNode, ghost t: IndexTrie, ghost owned: set<IndexNode>, ghost sized: Sized)
    returns (total: nat, ghost more: Sized)
    requires node in Trees(t, owned) && Calculated(sized, owned)
    modifies owned`size, owned`total
    ensures total == KidsTotal(t, CHILDMAX)
    ensures Calculated(more, owned) && Extends(sized, more) && KidsSized(node, t, more, CHILDMAX)
    decreases t, 2
  {
    var from, end := Span(node, t, owned);
    KidsTotalBefore(t, from);
    KidsTotalAfter(t, end);
    total, more := CalculateRange(node, from, end, t, owned, sized);
  }

  /** index_calculate_size: the sizes of a node and of everything below it, kept in the nodes. */
  method CalculateSize(node: IndexNode, ghost t: IndexTrie, ghost owned: set<IndexNode>, ghost sized: Sized)
    returns (total: nat, ghost more: Sized)
    requires node in Trees(t, owned) && Calculated(sized, owned)
    modifies owned`size, owned`total
    ensures total == Total(t)
    ensures Calculated(more, owned) && Extends(sized, more) && node in more && more[node] == t
    decreases t, 3
  {
    total, more := CalculateKids(node, t, owned, sized);
    var size := OwnSize(node, t, owned);
    total := total + size;
    more := StoreSizes(node, size, total, t, owned, more);
  }

  /** The range of slots in use, the end not included. */
  method Span(node: IndexNode, ghost t: IndexTrie, ghost owned: set<IndexNode>) returns (from: nat, end: nat)
    requires node in Trees(t, owned)
    ensures from <= end <= CHILDMAX && forall c :: c in t.kids ==> from <= c < end
  {
    Root(node, t, owned);
    RangeOf(t, 0, 0);
    from := node.first;
    end := if node.first <= node.last then node.last + 1 else node.first;
  }

  /** Nothing lies outside the child range. */
  lemma RangeBounds(t: IndexTrie)
    ensures 0 <= First(t) <= CHILDMAX && KidsTotal(t, First(t)) == 0
    ensures t.kids != map[] ==> First(t) <= Last(t)
    ensures t.kids == map[] <==> First(t) == CHILDMAX
  {
    RangeOf(t, 0, 0);
    KidsTotalBefore(t, First(t));
  }

  // ----- bytes

  /** No words and no images outside the range. */
  lemma {:induction false} KidsImageBefore(t: IndexTrie, offset: nat, c: int)
    requires 0 <= c <= CHILDMAX && forall d :: d in t.kids ==> c <= d
    ensures KidsImage(t, offset, c) == []
    decreases c
  {
    if c > 0 {
      KidsImageBefore(t, offset, c - 1);
    }
  }

  lemma {:induction false} KidsImageAfter(t: IndexTrie, offset: nat, c: int)
    requires 0 <= c <= CHILDMAX && forall d :: d in t.kids ==> d < c
    ensures KidsImage(t, offset, c) == KidsImage(t, offset, CHILDMAX)
    decreases CHILDMAX - c
  {
    if c < CHILDMAX {
      KidsImageAfter(t, offset, c + 1);
    }
  }

  /** htobe32(offset | index_get_mask(child)), from the child's fields */
  method ChildTag(child: IndexNode, offset: nat, ghost t: IndexTrie) returns (w: nat)
    requires Fields(child, t)
    ensures w == Tagged(offset, t)
  {
    RangeOf(t, 0, 0);
    w := TagWord(offset, child.first < CHILDMAX, child.prefix != [], child.values != []);
  }

  /** The nodes for `t` whose sizes have been calculated. */
  ghost function Ready(t: IndexTrie, owned: set<IndexNode>, sized: Sized): set<IndexNode>
    reads owned
  {
    set n | n in sized && sized[n] == t && Calculated(sized, owned)
  }

  lemma SizesOf(n: IndexNode, t: IndexTrie, owned: set<IndexNode>, sized: Sized)
    requires n in Ready(t, owned, sized)
    ensures n in Trees(t, owned) && Fields(n, t) && n.size == Size(t) && n.total == Total(t)
  {
    IsClosed(n, sized, owned);
    Root(n, t, owned);
  }

  lemma ReadyKid(n: IndexNode, t: IndexTrie, owned: set<IndexNode>, sized: Sized, c: int)
    requires n in Ready(t, owned, sized) && c in t.kids
    ensures |n.children| == CHILDMAX && 0 < c < CHILDMAX
    ensures n.children[c] != null && n.children[c] in Ready(t.kids[c], owned, sized)
  {
    IsClosed(n, sized, owned);
    Kid(n, t, owned, c);
  }

  /** The word for one slot of the child array, and the bytes below it. */
  method SlotWord(node: IndexNode, c: nat, pos: nat, ghost offset: nat, ghost t: IndexTrie, ghost owned: set<IndexNode>,
                  ghost sized: Sized)
    returns (w: nat, total: nat)
    requires node in Ready(t, owned, sized) && c < CHILDMAX && pos == ChildStart(t, offset, c)
    ensures w == ChildWord(t, offset, c) && KidsTotal(t, c + 1) == KidsTotal(t, c) + total
  {
    w, total := 0, 0;
    SizesOf(node, t, owned, sized);
    if node.children[c] != null {
      ReadyKid(node, t, owned, sized, c);
      SizesOf(node.children[c], t.kids[c], owned, sized);
      w := ChildTag(node.children[c], pos, t.kids[c]);
      total := node.children[c].total;
    }
  }

  /** The table of child offsets of a node written at `offset`. */
  method OffsetTable(node: IndexNode, offset: nat, ghost t: IndexTrie, ghost owned: set<IndexNode>, ghost sized: Sized)
    returns (table: Str)
    requires node in Ready(t, owned, sized) && t.kids != map[]
    ensures Last(t) < CHILDMAX && First(t) <= Last(t)
    ensures table == ChildWords(t, offset, Last(t) + 1)
  {
    SizesOf(node, t, owned, sized);
    RangeBounds(t);
    var sizes := 0;
    table := [];
    for c := node.first to node.last + 1
      invariant (table, sizes) == Tabled(t, offset, c)
    {
      table, sizes := NextWord(node, c, table, sizes, offset, t, owned, sized);
    }
  }

  /** The table up to arc `c`, and the bytes of the children before it. */
  ghost function Tabled(t: IndexTrie, offset: nat, c: int): (Str, nat)
    requires First(t) <= c <= CHILDMAX
  {
    (ChildWords(t, offset, c), KidsTotal(t, c))
  }

  method NextWord(node: IndexNode, c: nat, table: Str, sizes: nat, offset: nat, ghost t: IndexTrie,
                  ghost owned: set<IndexNode>, ghost sized: Sized)
    returns (table': Str, sizes': nat)
    requires node in Ready(t, owned, sized) && First(t) <= c < CHILDMAX && (table, sizes) == Tabled(t, offset, c)
    ensures (table', sizes') == Tabled(t, offset, c + 1)
  {
    SizesOf(node, t, owned, sized);
    var w, total := SlotWord(node, c, offset + node.size + sizes, offset, t, owned, sized);
    ChildWordsStep(t, offset, c, w);
    table', sizes' := table + BigEndian(w), sizes + total;
  }

  lemma ChildWordsStep(t: IndexTrie, offset: nat, c: int, w: nat)
    requires First(t) <= c < CHILDMAX
    requires w == ChildWord(t, offset, c)
    ensures ChildWords(t, offset, c + 1) == ChildWords(t, offset, c) + BigEndian(w)
  {
  }

  method WriteValues(values: seq<Value>) returns (out: Str)
    requires forall i :: 0 <= i < |values| ==> values[i].priority >= 0
    ensures out == ValuesImage(values)
  {
    out := [];
    for i := 0 to |values|
      invariant out == ValuesImage(values[..i])
    {
      assert values[..i + 1][..i] == values[..i];
      out := out + (BigEndian(values[i].priority) + values[i].text + [0]);
    }
    assert values[..|values|] == values;
  }

  /** The node's own bytes. */
  method WriteOwn(node: IndexNode, offset: nat, ghost t: IndexTrie, ghost owned: set<IndexNode>, ghost sized: Sized)
    returns (out: Str)
    requires node in Ready(t, owned, sized)
    ensures out == PrefixImage(t) + ChildTable(t, offset) + ValueList(t.values)
  {
    SizesOf(node, t, owned, sized);
    var prefix: Str := if node.prefix != [] then node.prefix + [0] else [];
    var table := WriteTable(node, offset, t, owned, sized);
    var values := [];
    if node.values != [] {
      var vs := WriteValues(node.values);
      values := BigEndian(|node.values|) + vs;
    }
    out := prefix + table + values;
  }

  /** The child range and the offsets of the children, if there are any. */
  method WriteTable(node: IndexNode, offset: nat, ghost t: IndexTrie, ghost owned: set<IndexNode>, ghost sized: Sized)
    returns (out: Str)
    requires node in Ready(t, owned, sized)
    ensures out == ChildTable(t, offset)
  {
    SizesOf(node, t, owned, sized);
    RangeBounds(t);
    out := [];
    if node.first < CHILDMAX {
      var table := OffsetTable(node, offset, t, owned, sized);
      out := RangeBytes(node.first, node.last) + table;
    }
  }

  /** The bytes of the subtree in one slot of the child array. */
  method WriteSlot(node: IndexNode, c: nat, pos: nat, ghost offset: nat, ghost t: IndexTrie,
                   ghost owned: set<IndexNode>, ghost sized: Sized)
    returns (bytes: Str, total: nat)
    requires node in Ready(t, owned, sized) && c < CHILDMAX && pos == ChildStart(t, offset, c)
    ensures KidsImage(t, offset, c + 1) == KidsImage(t, offset, c) + bytes
    ensures ChildStart(t, offset, c + 1) == pos + total
    decreases t, 0
  {
    bytes, total := [], 0;
    SizesOf(node, t, owned, sized);
    if node.children[c] != null {
      ReadyKid(node, t, owned, sized, c);
      bytes, total := WriteNode(node.children[c], pos, t.kids[c], owned, sized);
    }
  }

  /** The bytes of the subtrees on arcs below `c`, and where the next one starts. */
  ghost function Emitted(t: IndexTrie, offset: nat, c: int): (Str, nat)
    requires 0 <= c <= CHILDMAX
  {
    (KidsImage(t, offset, c), ChildStart(t, offset, c))
  }

  method WriteNext(node: IndexNode, c: nat, kids: Str, pos: nat, ghost offset: nat, ghost t: IndexTrie,
                   ghost owned: set<IndexNode>, ghost sized: Sized)
    returns (kids': Str, pos': nat)
    requires node in Ready(t, owned, sized) && c < CHILDMAX && (kids, pos) == Emitted(t, offset, c)
    ensures (kids', pos') == Emitted(t, offset, c + 1)
    decreases t, 1
  {
    var bytes, n := WriteSlot(node, c, pos, offset, t, owned, sized);
    kids', pos' := kids + bytes, pos + n;
  }

  /** The bytes of the subtrees in a range of slots, one behind the other. */
  method WriteRange(node: IndexNode, from: nat, end: nat, start: nat, ghost offset: nat, ghost t: IndexTrie,
                    ghost owned: set<IndexNode>, ghost sized: Sized)
    returns (kids: Str, pos: nat)
    requires node in Ready(t, owned, sized) && from <= end <= CHILDMAX && ([], start) == Emitted(t, offset, from)
    ensures (kids, pos) == Emitted(t, offset, end)
    decreases t, 2
  {
    kids, pos := [], start;
    for c := from to end
      invariant (kids, pos) == Emitted(t, offset, c)
    {
      kids, pos := WriteNext(node, c, kids, pos, offset, t, owned, sized);
    }
  }

  /** The bytes of all subtrees. */
  method WriteKids(node: IndexNode, offset: nat, ghost t: IndexTrie, ghost owned: set<IndexNode>, ghost sized: Sized)
    returns (kids: Str)
    requires node in Ready(t, owned, sized)
    ensures kids == KidsImage(t, offset, CHILDMAX)
    decreases t, 3
  {
    SizesOf(node, t, owned, sized);
    var from, end := Span(node, t, owned);
    NoneEmitted(t, offset, from);
    var pos;
    kids, pos := WriteRange(node, from, end, offset + node.size, offset, t, owned, sized);
    AllEmitted(t, offset, end);
  }

  lemma NoneEmitted(t: IndexTrie, offset: nat, from: int)
    requires 0 <= from <= CHILDMAX && forall c :: c in t.kids ==> from <= c
    ensures ([], offset + Size(t)) == Emitted(t, offset, from)
  {
    KidsTotalBefore(t, from);
    KidsImageBefore(t, offset, from);
  }

  lemma AllEmitted(t: IndexTrie, offset: nat, end: int)
    requires 0 <= end <= CHILDMAX && forall c :: c in t.kids ==> c < end
    ensures Emitted(t, offset, end).0 == KidsImage(t, offset, CHILDMAX)
  {
    KidsImageAfter(t, offset, end);
  }

  /** index_write__node: pre-order, each child at the offset its parent's table gives. */
  method WriteNode(node: IndexNode, offset: nat, ghost t: IndexTrie, ghost owned: set<IndexNode>, ghost sized: Sized)
    returns (out: Str, total: nat)
    requires node in Ready(t, owned, sized)
    ensures out == Image(t, offset) && total == Total(t)
    decreases t, 4
  {
    var own := WriteOwn(node, offset, t, owned, sized);
    var kids := WriteKids(node, offset, t, owned, sized);
    out := own + kids;
    SizesOf(node, t, owned, sized);
    total := node.total;
  }

  /** index_write */
  method IndexWrite(root: IndexNode, ghost s: Shape, ghost owned: set<IndexNode>) returns (file: Str)
    requires IsIndex(root, s, owned) && WellFormed(TrieOf(s))
    modifies owned`size, owned`total
    ensures file == FileImage(TrieOf(s)) && IsIndex(root, s, owned)
  {
    UnfoldIndex(root, s, owned);
    IndexIsTree(root, s, owned);
    file := WriteFile(root, TrieOf(s), owned);
  }

  method WriteFile(root: IndexNode, ghost t: IndexTrie, ghost owned: set<IndexNode>) returns (file: Str)
    requires root in Trees(t, owned)
    modifies owned`size, owned`total
    ensures file == FileImage(t)
  {
    var total;
    ghost var sized;
    total, sized := CalculateSize(root, t, owned, map[]);
    SizesOf(root, t, owned, sized);
    var tag := ChildTag(root, HEADER, t);
    var body, _ := WriteNode(root, HEADER, t, owned, sized);
    file := BigEndian(MAGIC) + BigEndian(VERSION) + BigEndian(tag) + body;
  }
}
