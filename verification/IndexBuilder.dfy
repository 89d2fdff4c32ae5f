/**
 depmod's in-memory index: heap nodes that insertion splits in place.
 The ghost shape of a node records the nodes below it, what each of them holds and the trie they stand for.
 */
module IndexBuilder {
  import opened Text
  import opened PatriciaTrie
  import opened Layout

  class IndexNode {
    var prefix: Str
    var values: seq<Value>
    var first: int
    var last: int
    var size: int
    var total: int
    var children: seq<IndexNode?>

    /** A node as calloc leaves it, with the given prefix and an empty child range. */
    constructor (prefix: Str)
      ensures Contents() == Record(prefix, [], CHILDMAX, 0, NoChildren())
    {
      this.prefix, values := prefix, [];
      first, last := CHILDMAX, 0;
      size, total := 0, 0;
      children := NoChildren();
    }

    /** memcpy of `other`, with another prefix */
    method Duplicate(other: IndexNode, prefix: Str)
      requires this != other
      modifies this
      ensures Contents() == other.Contents().(prefix := prefix)
    {
      this.prefix, values := prefix, other.values;
      first, last := other.first, other.last;
      size, total := other.size, other.total;
      children := other.children;
    }

    /** A leaf with one value. */
    method MakeLeaf(prefix: Str, text: Str, priority: int)
      modifies this
      ensures Contents() == Record(prefix, [Value(text, priority)], CHILDMAX, 0, NoChildren())
    {
      this.prefix := prefix;
      first, last := CHILDMAX, 0;
      size, total := 0, 0;
      children := NoChildren();
      var vs, _ := IndexAddValue([], text, priority);
      values := vs;
    }

    ghost function Contents(): Record
      reads this`prefix, this`values, this`first, this`last, this`children
    {
      Record(prefix, values, first, last, children)
    }
  }

  /** The contents of one node, as far as the trie goes. */
  datatype Record = Record(prefix: Str, values: seq<Value>, first: int, last: int, children: seq<IndexNode?>)

  function NoChildren(): (cs: seq<IndexNode?>)
    ensures |cs| == CHILDMAX && forall c :: 0 <= c < CHILDMAX ==> cs[c] == null
  {
    seq(CHILDMAX, _ => null)
  }

  // ----- shapes

  datatype Shape = Shape(node: IndexNode, prefix: Str, values: seq<Value>, kids: map<int, Shape>)

  /** The trie a shape stands for. */
  ghost function TrieOf(s: Shape): Trie {
    Node(s.prefix, s.values, map c | c in s.kids :: TrieOf(s.kids[c]))
  }

  /** All nodes of a shape. */
  ghost function Nodes(s: Shape): set<IndexNode> {
    {s.node} + set c, n | c in s.kids && n in Nodes(s.kids[c]) :: n
  }

  /** What the root of a shape holds: the child array points at the sub-shapes' roots, within a tight range. */
  ghost function RecordOf(s: Shape): Record {
    Record(s.prefix, s.values, FirstFrom(s.kids, 0), LastUpto(s.kids, CHILDMAX - 1), Children(s.kids))
  }

  ghost function Children(kids: map<int, Shape>): (cs: seq<IndexNode?>)
    ensures |cs| == CHILDMAX
    ensures forall c :: 0 <= c < CHILDMAX ==> cs[c] == if c in kids then kids[c].node else null
  {
    seq(CHILDMAX, c => if c in kids then kids[c].node else null)
  }

  /** Each node with what it should hold. */
  ghost function Pairs(s: Shape): set<(IndexNode, Record)> {
    {(s.node, RecordOf(s))} + set c, p | c in s.kids && p in Pairs(s.kids[c]) :: p
  }

  /** No node occurs twice, and labels are 7-bit. */
  ghost predicate Proper(s: Shape) {
    && IsAscii(s.prefix)
    && (forall c :: c in s.kids ==> 0 < c < CHILDMAX && s.node !in Nodes(s.kids[c]) && Proper(s.kids[c]))
    && Apart(s.kids)
  }

  ghost predicate Apart(kids: map<int, Shape>) {
    forall c, d :: c in kids && d in kids && c != d ==> Nodes(kids[c]) !! Nodes(kids[d])
  }

  lemma KidNodes(s: Shape, c: int)
    requires c in s.kids
    ensures Nodes(s.kids[c]) <= Nodes(s) && Pairs(s.kids[c]) <= Pairs(s)
  {
  }

  lemma KidProper(s: Shape, c: int)
    requires Proper(s) && c in s.kids
    ensures Proper(s.kids[c]) && s.node !in Nodes(s.kids[c])
  {
  }

  lemma {:induction false} PairNodes(s: Shape)
    ensures forall p :: p in Pairs(s) ==> p.0 in Nodes(s)
  {
    forall c | c in s.kids ensures forall p :: p in Pairs(s.kids[c]) ==> p.0 in Nodes(s) {
      PairNodes(s.kids[c]);
      KidNodes(s, c);
    }
  }

  lemma KidsFacts(s: Shape)
    requires Proper(s)
    ensures forall c :: c in s.kids ==> s.node !in Nodes(s.kids[c])
    ensures forall c :: c in s.kids ==> Proper(s.kids[c]) && 0 < c < CHILDMAX
    ensures forall c :: c in s.kids ==> Nodes(s.kids[c]) <= Nodes(s)
  {
    forall c | c in s.kids ensures Nodes(s.kids[c]) <= Nodes(s) {
      KidNodes(s, c);
    }
  }

  lemma MakeProper(s: Shape)
    requires IsAscii(s.prefix)
    requires Apart(s.kids)
    requires forall c :: c in s.kids ==> s.node !in Nodes(s.kids[c])
    requires forall c :: c in s.kids ==> Proper(s.kids[c]) && 0 < c < CHILDMAX
    ensures Proper(s)
  {
  }

  // ----- sub-shapes along a path of arcs

  ghost predicate HasPath(s: Shape, path: seq<int>) {
    path == [] || (path[0] in s.kids && HasPath(s.kids[path[0]], path[1..]))
  }

  ghost function At(s: Shape, path: seq<int>): Shape
    requires HasPath(s, path)
  {
    if path == [] then s else At(s.kids[path[0]], path[1..])
  }

  ghost function Graft(s: Shape, path: seq<int>, x: Shape): Shape
    requires HasPath(s, path)
  {
    if path == [] then x
    else s.(kids := s.kids[path[0] := Graft(s.kids[path[0]], path[1..], x)])
  }

  ghost predicate TrieHasPath(t: Trie, path: seq<int>) {
    path == [] || (path[0] in t.kids && TrieHasPath(t.kids[path[0]], path[1..]))
  }

  ghost function TrieGraft(t: Trie, path: seq<int>, x: Trie): Trie
    requires TrieHasPath(t, path)
  {
    if path == [] then x
    else t.(kids := t.kids[path[0] := TrieGraft(t.kids[path[0]], path[1..], x)])
  }

  lemma {:induction false} GraftTrie(s: Shape, path: seq<int>, x: Shape)
    requires HasPath(s, path)
    ensures TrieHasPath(TrieOf(s), path)
    ensures TrieOf(Graft(s, path, x)) == TrieGraft(TrieOf(s), path, TrieOf(x))
    decreases path
  {
    if path != [] {
      GraftTrie(s.kids[path[0]], path[1..], x);
    }
  }

  /** One arc further down. */
  lemma {:induction false} PathStep(s: Shape, path: seq<int>, c: int, y: Trie)
    requires HasPath(s, path) && c in At(s, path).kids
    ensures HasPath(s, path + [c]) && At(s, path + [c]) == At(s, path).kids[c]
    ensures TrieHasPath(TrieOf(s), path) && TrieHasPath(TrieOf(s), path + [c])
    ensures var t := TrieOf(At(s, path));
            TrieGraft(TrieOf(s), path, t.(kids := t.kids[c := y])) == TrieGraft(TrieOf(s), path + [c], y)
    decreases path
  {
    if path == [] {
      assert path + [c] == [c];
      assert [c][1..] == [];
      assert HasPath(s.kids[c], []);
    } else {
      assert (path + [c])[1..] == path[1..] + [c];
      PathStep(s.kids[path[0]], path[1..], c, y);
    }
  }

  lemma {:induction false} AtFacts(s: Shape, path: seq<int>)
    requires HasPath(s, path) && Proper(s)
    ensures Proper(At(s, path)) && Nodes(At(s, path)) <= Nodes(s) && Pairs(At(s, path)) <= Pairs(s)
    decreases path
  {
    if path != [] {
      KidProper(s, path[0]);
      KidNodes(s, path[0]);
      AtFacts(s.kids[path[0]], path[1..]);
    }
  }

  /** What a graft leaves alone: pairs of nodes outside the replaced sub-shape. */
  lemma {:induction false} GraftPairs(s: Shape, path: seq<int>, x: Shape)
    requires HasPath(s, path) && Proper(s) && x.node == At(s, path).node
    ensures Graft(s, path, x).node == s.node
    ensures forall p :: p in Pairs(Graft(s, path, x)) ==>
              p in Pairs(x) || (p in Pairs(s) && p.0 !in Nodes(At(s, path)))
    decreases path
  {
    if path != [] {
      var c := path[0];
      KidProper(s, c);
      GraftPairs(s.kids[c], path[1..], x);
      AtFacts(s.kids[c], path[1..]);
      ReplaceKidPairs(s, c, Graft(s.kids[c], path[1..], x));
    }
  }

  /** One child replaced by another one at the same node: the root's record stays. */
  lemma {:induction false} ReplaceKidPairs(s: Shape, c: int, y: Shape)
    requires Proper(s) && c in s.kids && y.node == s.kids[c].node
    ensures forall p :: p in Pairs(s.(kids := s.kids[c := y])) ==>
              p in Pairs(y) || (p in Pairs(s) && p.0 !in Nodes(s.kids[c]))
  {
    var g := s.(kids := s.kids[c := y]);
    ReplaceKidRecord(s, c, y);
    KidProper(s, c);
    forall p | p in Pairs(g) && p !in Pairs(y) ensures p in Pairs(s) && p.0 !in Nodes(s.kids[c]) {
      if p != (s.node, RecordOf(s)) {
        var d := PairBelow(g, p);
        OtherKid(s, c, d, p);
      }
    }
  }

  lemma OtherKid(s: Shape, c: int, d: int, p: (IndexNode, Record))
    requires Apart(s.kids) && c in s.kids && d in s.kids && c != d && p in Pairs(s.kids[d])
    ensures p in Pairs(s) && p.0 !in Nodes(s.kids[c])
  {
    KidNodes(s, d);
    PairNodes(s.kids[d]);
  }

  lemma ReplaceKidRecord(s: Shape, c: int, y: Shape)
    requires c in s.kids && y.node == s.kids[c].node
    ensures RecordOf(s.(kids := s.kids[c := y])) == RecordOf(s)
  {
    var g := s.(kids := s.kids[c := y]);
    SameRange(s.kids, g.kids);
    assert Children(g.kids) == Children(s.kids);
  }

  /** A graft over the replaced nodes and foreign ones is a proper shape. */
  lemma {:induction false} GraftProper(s: Shape, path: seq<int>, x: Shape, foreign: set<IndexNode>)
    requires HasPath(s, path) && Proper(s) && Proper(x)
    requires foreign !! Nodes(s) && Nodes(x) <= Nodes(At(s, path)) + foreign
    ensures Proper(Graft(s, path, x))
    ensures Nodes(Graft(s, path, x)) <= Nodes(s) + foreign
    decreases path
  {
    if path != [] {
      var c := path[0];
      KidProper(s, c);
      KidNodes(s, c);
      GraftProper(s.kids[c], path[1..], x, foreign);
      ReplaceKid(s, c, Graft(s.kids[c], path[1..], x), foreign);
      ReplaceKidNodes(s, c, Graft(s.kids[c], path[1..], x), foreign);
    }
  }

  lemma ReplaceKidNodes(s: Shape, c: int, y: Shape, foreign: set<IndexNode>)
    requires c in s.kids && Nodes(y) <= Nodes(s.kids[c]) + foreign
    ensures Nodes(s.(kids := s.kids[c := y])) <= Nodes(s) + foreign
  {
    var g := s.(kids := s.kids[c := y]);
    forall n | n in Nodes(g) ensures n in Nodes(s) + foreign {
      if n != s.node {
        var d :| d in g.kids && n in Nodes(g.kids[d]);
        KidNodes(s, d);
      }
    }
  }

  lemma ReplaceApart(kids: map<int, Shape>, c: int, y: Shape, foreign: set<IndexNode>)
    requires Apart(kids) && c in kids && Nodes(y) <= Nodes(kids[c]) + foreign
    requires forall d :: d in kids ==> Nodes(kids[d]) !! foreign
    ensures Apart(kids[c := y])
  {
    forall d | d in kids && d != c ensures Nodes(kids[d]) !! Nodes(y) {
      assert Nodes(kids[d]) !! Nodes(kids[c]);
    }
  }

  /** One child replaced by one over its own nodes and foreign ones. */
  lemma ReplaceKid(s: Shape, c: int, y: Shape, foreign: set<IndexNode>)
    requires Proper(s) && c in s.kids && Proper(y)
    requires foreign !! Nodes(s) && Nodes(y) <= Nodes(s.kids[c]) + foreign
    ensures Proper(s.(kids := s.kids[c := y]))
  {
    KidsFacts(s);
    ReplaceApart(s.kids, c, y, foreign);
    assert s.node in Nodes(s) && s.node !in Nodes(y);
    MakeProper(s.(kids := s.kids[c := y]));
  }

  // ----- the three ways in which insertion rewrites a node

  /** Apart from the `changed` ones, the pairs of `s'` are pairs of `s` below its root. */
  ghost predicate Rewrites(s: Shape, s': Shape, changed: set<(IndexNode, Record)>) {
    forall p :: p in Pairs(s') ==> p in changed || (p in Pairs(s) && p.0 != s.node)
  }

  lemma KidPair(s: Shape, c: int, p: (IndexNode, Record))
    requires Proper(s) && c in s.kids && p in Pairs(s.kids[c])
    ensures p in Pairs(s) && p.0 != s.node
  {
    KidNodes(s, c);
    KidProper(s, c);
    PairNodes(s.kids[c]);
  }

  lemma KidPairs(s: Shape)
    requires Proper(s)
    ensures forall c, p :: c in s.kids && p in Pairs(s.kids[c]) ==> p in Pairs(s) && p.0 != s.node
  {
    forall c, p | c in s.kids && p in Pairs(s.kids[c]) ensures p in Pairs(s) && p.0 != s.node {
      KidPair(s, c, p);
    }
  }

  /** A pair that is not the root's is a child's. */
  lemma PairBelow(s: Shape, p: (IndexNode, Record)) returns (c: int)
    requires p in Pairs(s) && p != (s.node, RecordOf(s))
    ensures c in s.kids && p in Pairs(s.kids[c])
  {
    c :| c in s.kids && p in Pairs(s.kids[c]);
  }

  ghost function SplitLower(s: Shape, j: nat, n: IndexNode): Shape
    requires j < |s.prefix|
  {
    Shape(n, s.prefix[j + 1..], s.values, s.kids)
  }

  ghost function SplitShape(s: Shape, j: nat, n: IndexNode): Shape
    requires j < |s.prefix|
  {
    Shape(s.node, s.prefix[..j], [], map[s.prefix[j] := SplitLower(s, j, n)])
  }

  lemma SplitLowerFacts(s: Shape, j: nat, n: IndexNode)
    requires Proper(s) && j < |s.prefix| && n !in Nodes(s)
    ensures Proper(SplitLower(s, j, n)) && s.node !in Nodes(SplitLower(s, j, n))
    ensures Nodes(SplitLower(s, j, n)) <= Nodes(s) + {n}
  {
    KidsFacts(s);
    assert s.node in Nodes(s);
    MakeProper(SplitLower(s, j, n));
  }

  lemma SplitProper(s: Shape, j: nat, n: IndexNode)
    requires Proper(s) && j < |s.prefix| && 0 < s.prefix[j] < CHILDMAX && n !in Nodes(s)
    ensures Proper(SplitShape(s, j, n)) && Nodes(SplitShape(s, j, n)) <= Nodes(s) + {n}
  {
    SplitLowerFacts(s, j, n);
    assert s.node in Nodes(s);
    MakeProper(SplitShape(s, j, n));
  }

  lemma SplitPairs(s: Shape, j: nat, n: IndexNode)
    requires Proper(s) && j < |s.prefix|
    ensures Rewrites(s, SplitShape(s, j, n),
                     {(s.node, RecordOf(SplitShape(s, j, n))), (n, RecordOf(SplitLower(s, j, n)))})
  {
    var x, l := SplitShape(s, j, n), SplitLower(s, j, n);
    forall p | p in Pairs(x) && p != (s.node, RecordOf(x)) && p != (n, RecordOf(l))
      ensures p in Pairs(s) && p.0 != s.node
    {
      var c := PairBelow(x, p);
      var d := PairBelow(l, p);
      KidPair(s, d, p);
    }
  }

  lemma SplitTrie(s: Shape, j: nat, n: IndexNode)
    requires j < |s.prefix|
    ensures TrieOf(SplitShape(s, j, n)) == Split(TrieOf(s), j)
  {
    var x, l := SplitShape(s, j, n), SplitLower(s, j, n);
    assert TrieOf(l).kids == TrieOf(s).kids;
    assert TrieOf(x).kids == map[s.prefix[j] := TrieOf(l)];
  }

  lemma SplitRecords(s: Shape, j: nat, n: IndexNode)
    requires j < |s.prefix| && 0 < s.prefix[j] < CHILDMAX
    ensures var p := s.prefix;
            RecordOf(SplitShape(s, j, n)) == Record(p[..j], [], p[j], p[j], NoChildren()[p[j] := n])
    ensures RecordOf(SplitLower(s, j, n)) == RecordOf(s).(prefix := s.prefix[j + 1..])
  {
    var x := SplitShape(s, j, n);
    assert s.prefix[j] in x.kids;
    assert Children(x.kids) == NoChildren()[s.prefix[j] := n];
  }

  ghost function ValuesShape(s: Shape, values: seq<Value>): Shape {
    s.(values := values)
  }

  lemma ValuesFacts(s: Shape, values: seq<Value>)
    requires Proper(s)
    ensures Proper(ValuesShape(s, values)) && Nodes(ValuesShape(s, values)) == Nodes(s)
    ensures TrieOf(ValuesShape(s, values)) == TrieOf(s).(values := values)
  {
    var x := ValuesShape(s, values);
    assert Nodes(x) == Nodes(s);
    assert TrieOf(x).kids == TrieOf(s).kids;
  }

  lemma ValuesPairs(s: Shape, values: seq<Value>)
    requires Proper(s)
    ensures Rewrites(s, ValuesShape(s, values), {(s.node, RecordOf(ValuesShape(s, values)))})
  {
    KidPairs(s);
  }

  ghost function LeafShape(child: IndexNode, prefix: Str, v: Value): Shape {
    Shape(child, prefix, [v], map[])
  }

  ghost function LeafAdded(s: Shape, ch: int, leaf: Shape): Shape {
    s.(kids := s.kids[ch := leaf])
  }

  /** The record after a child has been hung on a free arc. */
  function Widened(r: Record, ch: int, child: IndexNode): Record
    requires 0 <= ch < |r.children|
  {
    r.(first := if ch < r.first then ch else r.first,
       last := if ch > r.last then ch else r.last,
       children := r.children[ch := child])
  }

  lemma LeafRecords(s: Shape, ch: int, leaf: Shape)
    requires 0 < ch < CHILDMAX && ch !in s.kids && leaf.kids == map[]
    ensures RecordOf(LeafAdded(s, ch, leaf)) == Widened(RecordOf(s), ch, leaf.node)
    ensures RecordOf(leaf) == Record(leaf.prefix, leaf.values, CHILDMAX, 0, NoChildren())
  {
    var x := LeafAdded(s, ch, leaf);
    WidenedRange(s.kids, x.kids, ch);
    ChildrenWith(s.kids, ch, leaf);
    ChildrenNone(leaf.kids);
  }

  lemma ChildrenWith(kids: map<int, Shape>, ch: int, leaf: Shape)
    requires 0 < ch < CHILDMAX
    ensures Children(kids[ch := leaf]) == Children(kids)[ch := leaf.node]
  {
  }

  lemma ChildrenNone(kids: map<int, Shape>)
    requires kids == map[]
    ensures Children(kids) == NoChildren() && FirstFrom(kids, 0) == CHILDMAX && LastUpto(kids, CHILDMAX - 1) == 0
  {
  }

  lemma WidenedRange(kids: map<int, Shape>, more: map<int, Shape>, ch: int)
    requires 0 < ch < CHILDMAX && more.Keys == kids.Keys + {ch}
    ensures FirstFrom(more, 0) == if ch < FirstFrom(kids, 0) then ch else FirstFrom(kids, 0)
    ensures var last := LastUpto(kids, CHILDMAX - 1); LastUpto(more, CHILDMAX - 1) == if ch > last then ch else last
  {
    assert ch in more && forall c :: c in more <==> c in kids || c == ch;
  }

  lemma LeafNodes(s: Shape, ch: int, leaf: Shape)
    requires leaf.kids == map[]
    ensures Nodes(leaf) == {leaf.node}
    ensures Nodes(LeafAdded(s, ch, leaf)) <= Nodes(s) + {leaf.node}
  {
    var x := LeafAdded(s, ch, leaf);
    assert Nodes(leaf) == {leaf.node};
    forall n | n in Nodes(x) ensures n in Nodes(s) + {leaf.node} {
      if n != s.node {
        var d :| d in x.kids && n in Nodes(x.kids[d]);
        if d != ch {
          KidNodes(s, d);
        }
      }
    }
  }

  lemma LeafPairs(s: Shape, ch: int, leaf: Shape)
    requires Proper(s) && leaf.kids == map[]
    ensures Rewrites(s, LeafAdded(s, ch, leaf),
                     {(s.node, RecordOf(LeafAdded(s, ch, leaf))), (leaf.node, RecordOf(leaf))})
  {
    var x := LeafAdded(s, ch, leaf);
    forall p | p in Pairs(x) && p != (s.node, RecordOf(x)) && p != (leaf.node, RecordOf(leaf))
      ensures p in Pairs(s) && p.0 != s.node
    {
      var d := PairBelow(x, p);
      LeafPair(leaf, p);
      KidPair(s, d, p);
    }
  }

  lemma LeafPair(leaf: Shape, p: (IndexNode, Record))
    requires leaf.kids == map[]
    ensures p in Pairs(leaf) ==> p == (leaf.node, RecordOf(leaf))
  {
  }

  lemma LeafApart(kids: map<int, Shape>, ch: int, leaf: Shape)
    requires Apart(kids) && Nodes(leaf) == {leaf.node}
    requires forall c :: c in kids ==> leaf.node !in Nodes(kids[c])
    ensures Apart(kids[ch := leaf])
  {
  }

  lemma LeafProper(s: Shape, ch: int, leaf: Shape)
    requires Proper(s) && 0 < ch < CHILDMAX
    requires leaf.kids == map[] && IsAscii(leaf.prefix) && leaf.node !in Nodes(s)
    ensures Proper(LeafAdded(s, ch, leaf))
  {
    KidsFacts(s);
    LeafNodes(s, ch, leaf);
    LeafApart(s.kids, ch, leaf);
    assert s.node in Nodes(s);
    MakeProper(LeafAdded(s, ch, leaf));
  }

  lemma LeafTrie(s: Shape, ch: int, leaf: Shape)
    ensures TrieOf(LeafAdded(s, ch, leaf)) == TrieOf(s).(kids := TrieOf(s).kids[ch := TrieOf(leaf)])
  {
    assert TrieOf(LeafAdded(s, ch, leaf)).kids == TrieOf(s).kids[ch := TrieOf(leaf)];
  }

  /** index_add_value: the duplicate flag is about the text alone, the position about the priority alone. */
  method IndexAddValue(values: seq<Value>, text: Str, priority: int) returns (result: seq<Value>, duplicate: bool)
    ensures result == AddValue(values, Value(text, priority))
    ensures duplicate <==> exists v :: v in values && v.text == text
  {
    duplicate := false;
    for i := 0 to |values|
      invariant duplicate <==> exists k :: 0 <= k < i && values[k].text == text
    {
      if values[i].text == text {
        duplicate := true;
      }
    }
    var k := 0;
    while k < |values| && values[k].priority < priority
      invariant 0 <= k <= |values|
      invariant forall i :: 0 <= i < k ==> values[i].priority < priority
    {
      k := k + 1;
    }
    var v := Value(text, priority);
    AddValueAt(values, v, k);
    result := values[..k] + [v] + values[k..];
  }

  method SplitRecord(node: IndexNode, j: nat, n: IndexNode)
    requires j < |node.prefix| && node.prefix[j] < CHILDMAX && n != node
    modifies node, n
    ensures n.Contents() == old(node.Contents().(prefix := node.prefix[j + 1..]))
    ensures var p := old(node.prefix);
            node.Contents() == Record(p[..j], [], p[j], p[j], NoChildren()[p[j] := n])
  {
    var prefix := node.prefix;
    var ch := prefix[j];
    n.Duplicate(node, prefix[j + 1..]);
    node.prefix, node.values, node.first, node.last := prefix[..j], [], ch, ch;
    node.size, node.total := 0, 0;
    node.children := NoChildren()[ch := n];
  }

  method AddLeafRecord(node: IndexNode, ch: int, prefix: Str, text: Str, priority: int, child: IndexNode)
    requires 0 <= ch < |node.children| && child != node
    modifies node, child
    ensures child.Contents() == Record(prefix, [Value(text, priority)], CHILDMAX, 0, NoChildren())
    ensures node.Contents() == Widened(old(node.Contents()), ch, child)
  {
    if ch < node.first {
      node.first := ch;
    }
    if ch > node.last {
      node.last := ch;
    }
    node.children := node.children[ch := child];
    child.MakeLeaf(prefix, text, priority);
  }

  // ----- the last step of an insertion, as shapes

  /** The key parts ways with the node's prefix, ends with it, or goes on along a free arc. */
  ghost predicate EndsAt(s: Shape, j: nat, key: Str) {
    && IsAscii(s.prefix) && IsAscii(key) && j == Common(s.prefix, key)
    && (j == |s.prefix| && j < |key| ==> key[j] !in s.kids)
  }

  /** The shape after a possible split at `j`; `n` is the node that took the lower half. */
  ghost function Halved(s: Shape, j: nat, n: IndexNode): Shape {
    if j < |s.prefix| then SplitShape(s, j, n) else s
  }

  /** The value added to the root, or a leaf `child` hung on a free arc of it. */
  ghost function Extended(h: Shape, j: nat, key: Str, v: Value, child: IndexNode): Shape
    requires j <= |key|
  {
    if j == |key| then ValuesShape(h, AddValue(h.values, v))
    else LeafAdded(h, key[j], LeafShape(child, key[j + 1..], v))
  }

  /** ... and with the value added, or a leaf `child` hung on the free arc. */
  ghost function Inserted(s: Shape, j: nat, key: Str, v: Value, n: IndexNode, child: IndexNode): Shape
    requires j <= |key|
  {
    Extended(Halved(s, j, n), j, key, v, child)
  }

  /** The nodes that changed, with what they hold now. */
  ghost function Changed(s: Shape, j: nat, key: Str, v: Value, n: IndexNode, child: IndexNode): set<(IndexNode, Record)>
    requires j <= |key|
  {
    {(s.node, RecordOf(Inserted(s, j, key, v, n, child)))} + NewLower(s, j, n) + NewLeaf(j, key, v, child)
  }

  ghost function NewLower(s: Shape, j: nat, n: IndexNode): set<(IndexNode, Record)> {
    if j < |s.prefix| then {(n, RecordOf(SplitLower(s, j, n)))} else {}
  }

  ghost function NewLeaf(j: nat, key: Str, v: Value, child: IndexNode): set<(IndexNode, Record)> {
    if j < |key| then {(child, RecordOf(LeafShape(child, key[j + 1..], v)))} else {}
  }

  /** The new nodes. */
  ghost function Added(s: Shape, j: nat, key: Str, n: IndexNode, child: IndexNode): set<IndexNode> {
    (if j < |s.prefix| then {n} else {}) + (if j < |key| then {child} else {})
  }

  /** The nodes that are new are new, and different. */
  ghost predicate Unused(s: Shape, j: nat, key: Str, n: IndexNode, child: IndexNode, taken: set<IndexNode>) {
    && (j < |s.prefix| ==> n !in taken)
    && (j < |key| ==> child !in taken)
    && (j < |s.prefix| && j < |key| ==> n != child)
  }

  lemma AddedUnused(s: Shape, j: nat, key: Str, n: IndexNode, child: IndexNode, taken: set<IndexNode>)
    requires Unused(s, j, key, n, child, taken)
    ensures Added(s, j, key, n, child) !! taken
  {
  }

  lemma HalvedFacts(s: Shape, j: nat, n: IndexNode)
    requires Proper(s) && IsAscii(s.prefix) && j <= |s.prefix|
    requires j < |s.prefix| ==> n !in Nodes(s)
    ensures var h := Halved(s, j, n); h.node == s.node && Proper(h)
    ensures Nodes(Halved(s, j, n)) <= Nodes(s) + if j < |s.prefix| then {n} else {}
    ensures TrieOf(Halved(s, j, n)) == if j < |s.prefix| then Split(TrieOf(s), j) else TrieOf(s)
  {
    if j < |s.prefix| {
      SplitProper(s, j, n);
      SplitTrie(s, j, n);
    }
  }

  lemma HalvedPairs(s: Shape, j: nat, n: IndexNode)
    requires Proper(s) && j <= |s.prefix|
    ensures forall p :: p in Pairs(Halved(s, j, n)) && p.0 != s.node ==> p in NewLower(s, j, n) || p in Pairs(s)
  {
    if j < |s.prefix| {
      SplitPairs(s, j, n);
    }
  }

  lemma InsertedFacts(s: Shape, j: nat, key: Str, v: Value, n: IndexNode, child: IndexNode)
    requires Proper(s) && EndsAt(s, j, key) && Unused(s, j, key, n, child, Nodes(s))
    ensures var x := Inserted(s, j, key, v, n, child); x.node == s.node && Proper(x)
    ensures Nodes(Inserted(s, j, key, v, n, child)) <= Nodes(s) + Added(s, j, key, n, child)
  {
    var h := Halved(s, j, n);
    HalvedFacts(s, j, n);
    if j == |key| {
      ValuesFacts(h, AddValue(h.values, v));
    } else {
      var leaf := LeafShape(child, key[j + 1..], v);
      LeafNodes(h, key[j], leaf);
      LeafProper(h, key[j], leaf);
    }
  }

  lemma ExtendedPairs(h: Shape, j: nat, key: Str, v: Value, child: IndexNode)
    requires Proper(h) && j <= |key|
    ensures var x := Extended(h, j, key, v, child); Rewrites(h, x, {(h.node, RecordOf(x))} + NewLeaf(j, key, v, child))
  {
    if j == |key| {
      ValuesPairs(h, AddValue(h.values, v));
    } else {
      LeafPairs(h, key[j], LeafShape(child, key[j + 1..], v));
    }
  }

  lemma InsertedPairs(s: Shape, j: nat, key: Str, v: Value, n: IndexNode, child: IndexNode)
    requires Proper(s) && EndsAt(s, j, key) && Unused(s, j, key, n, child, Nodes(s))
    ensures Rewrites(s, Inserted(s, j, key, v, n, child), Changed(s, j, key, v, n, child))
  {
    var h, x := Halved(s, j, n), Inserted(s, j, key, v, n, child);
    HalvedFacts(s, j, n);
    HalvedPairs(s, j, n);
    ExtendedPairs(h, j, key, v, child);
    RewrittenTwice(Pairs(s), Pairs(h), Pairs(x), s.node, {(s.node, RecordOf(x))}, NewLower(s, j, n),
                   NewLeaf(j, key, v, child));
  }

  lemma RewrittenTwice(ps: set<(IndexNode, Record)>, ph: set<(IndexNode, Record)>, px: set<(IndexNode, Record)>,
                       node: IndexNode, root: set<(IndexNode, Record)>, lower: set<(IndexNode, Record)>,
                       leaf: set<(IndexNode, Record)>)
    requires forall p :: p in ph && p.0 != node ==> p in lower || p in ps
    requires forall p :: p in px ==> p in root + leaf || (p in ph && p.0 != node)
    ensures forall p :: p in px ==> p in root + lower + leaf || (p in ps && p.0 != node)
  {
  }

  lemma InsertedHere(h: Shape, key: Str, v: Value, child: IndexNode)
    requires Proper(h) && h.prefix <= key
    ensures TrieOf(Extended(h, |h.prefix|, key, v, child)) == InsertHere(TrieOf(h), key, v)
  {
    var j := |h.prefix|;
    if j == |key| {
      ValuesFacts(h, AddValue(h.values, v));
    } else {
      var leaf := LeafShape(child, key[j + 1..], v);
      LeafTrie(h, key[j], leaf);
      assert TrieOf(leaf).kids == map[];
    }
  }

  lemma InsertedTrie(s: Shape, j: nat, key: Str, v: Value, n: IndexNode, child: IndexNode)
    requires Proper(s) && EndsAt(s, j, key) && Unused(s, j, key, n, child, Nodes(s))
    ensures TrieOf(Inserted(s, j, key, v, n, child)) == Insert(TrieOf(s), key, v)
  {
    var h := Halved(s, j, n);
    HalvedFacts(s, j, n);
    assert h.prefix == key[..j];
    InsertedHere(h, key, v, child);
  }

  /** Split the node if its prefix goes on after position `j`. */
  method SplitIfNeeded(node: IndexNode, j: nat, n: IndexNode, ghost s: Shape)
    requires s.node == node && RecordOf(s) == node.Contents() && IsAscii(s.prefix) && j <= |s.prefix| && n != node
    modifies node, n
    ensures j < |s.prefix| ==> n.Contents() == RecordOf(SplitLower(s, j, n))
    ensures node.Contents() == RecordOf(Halved(s, j, n))
  {
    if j < |node.prefix| {
      SplitRecords(s, j, n);
      SplitRecord(node, j, n);
    }
  }

  /** The key ends here and gets a value, or goes on along a free arc and gets a leaf there. */
  method AddHere(node: IndexNode, j: nat, key: Str, text: Str, priority: int, child: IndexNode, ghost h: Shape)
    returns (duplicate: bool)
    requires h.node == node && RecordOf(h) == node.Contents() && IsAscii(key) && j <= |key| && child != node
    requires j < |key| ==> key[j] !in h.kids
    modifies node, child
    ensures node.Contents() == RecordOf(Extended(h, j, key, Value(text, priority), child))
    ensures j < |key| ==> child.Contents() == RecordOf(LeafShape(child, key[j + 1..], Value(text, priority)))
    ensures duplicate <==> j == |key| && exists v :: v in h.values && v.text == text
  {
    duplicate := false;
    if j == |key| {
      var values: seq<Value>;
      values, duplicate := IndexAddValue(node.values, text, priority);
      node.values := values;
    } else {
      LeafRecords(h, key[j], LeafShape(child, key[j + 1..], Value(text, priority)));
      AddLeafRecord(node, key[j], key[j + 1..], text, priority, child);
    }
  }

  /** The last step of an insertion on the heap: a split if needed, then a value or a leaf. */
  method RewriteNode(node: IndexNode, j: nat, key: Str, text: Str, priority: int,
                     n: IndexNode, child: IndexNode, ghost s: Shape)
    returns (duplicate: bool)
    requires s.node == node && RecordOf(s) == node.Contents() && EndsAt(s, j, key)
    requires n != node && child != node && n != child
    modifies node, n, child
    ensures node.Contents() == RecordOf(Inserted(s, j, key, Value(text, priority), n, child))
    ensures j < |s.prefix| ==> n.Contents() == RecordOf(SplitLower(s, j, n))
    ensures j < |key| ==> child.Contents() == RecordOf(LeafShape(child, key[j + 1..], Value(text, priority)))
    ensures duplicate <==> Known(TrieOf(s), key, text)
  {
    AnswerAtNode(s, j, key, text, n);
    SplitIfNeeded(node, j, n, s);
    duplicate := AddHere(node, j, key, text, priority, child, Halved(s, j, n));
  }

  /** ... while the other nodes go on holding what they hold. */
  method RewriteAmong(node: IndexNode, j: nat, key: Str, text: Str, priority: int, n: IndexNode, child: IndexNode,
                      ghost s: Shape, ghost pairs: set<(IndexNode, Record)>, ghost others: set<IndexNode>)
    returns (duplicate: bool)
    requires s.node == node && RecordOf(s) == node.Contents() && EndsAt(s, j, key)
    requires n != node && child != node && n != child && {node, n, child} !! others && HoldingBut(pairs, node, others)
    modifies node, n, child
    ensures node.Contents() == RecordOf(Inserted(s, j, key, Value(text, priority), n, child))
    ensures j < |s.prefix| ==> n.Contents() == RecordOf(SplitLower(s, j, n))
    ensures j < |key| ==> child.Contents() == RecordOf(LeafShape(child, key[j + 1..], Value(text, priority)))
    ensures HoldingBut(pairs, node, others) && (duplicate <==> Known(TrieOf(s), key, text))
  {
    duplicate := RewriteNode(node, j, key, text, priority, n, child, s);
  }

  /** The text is among the key's values. */
  ghost predicate Known(t: Trie, key: Str, text: Str) {
    exists v :: v in Lookup(t, key) && v.text == text
  }

  /** The answer of index_insert in terms of the node where the key ends. */
  lemma AnswerAtNode(s: Shape, j: nat, key: Str, text: Str, n: IndexNode)
    requires EndsAt(s, j, key)
    ensures Known(TrieOf(s), key, text)
        <==> j == |key| && exists v :: v in Halved(s, j, n).values && v.text == text
  {
    if j == |s.prefix| {
      assert s.prefix <= key;
    }
  }

  lemma AtPair(s: Shape, path: seq<int>)
    requires HasPath(s, path) && Proper(s)
    ensures (At(s, path).node, RecordOf(At(s, path))) in Pairs(s) && IsAscii(At(s, path).prefix)
  {
    AtFacts(s, path);
  }

  ghost function Finished(s: Shape, path: seq<int>, j: nat, key: Str, v: Value, n: IndexNode, child: IndexNode): Shape
    requires HasPath(s, path) && j <= |key|
  {
    Graft(s, path, Inserted(At(s, path), j, key, v, n, child))
  }

  /** The pairs after the graft: the changed ones and old ones of other nodes. */
  lemma FinishPairs(s: Shape, path: seq<int>, j: nat, key: Str, v: Value, n: IndexNode, child: IndexNode)
    requires HasPath(s, path) && Proper(s) && EndsAt(At(s, path), j, key)
    requires Unused(At(s, path), j, key, n, child, Nodes(s))
    ensures Finished(s, path, j, key, v, n, child).node == s.node
    ensures forall p :: p in Pairs(Finished(s, path, j, key, v, n, child)) ==>
              p in Changed(At(s, path), j, key, v, n, child) || (p in Pairs(s) && p.0 != At(s, path).node)
  {
    var cur := At(s, path);
    AtFacts(s, path);
    InsertedPairs(cur, j, key, v, n, child);
    InsertedFacts(cur, j, key, v, n, child);
    GraftPairs(s, path, Inserted(cur, j, key, v, n, child));
    assert cur.node in Nodes(cur);
  }

  lemma FinishProper(s: Shape, path: seq<int>, j: nat, key: Str, v: Value, n: IndexNode, child: IndexNode)
    requires HasPath(s, path) && Proper(s) && EndsAt(At(s, path), j, key)
    requires Unused(At(s, path), j, key, n, child, Nodes(s))
    ensures Proper(Finished(s, path, j, key, v, n, child))
    ensures Nodes(Finished(s, path, j, key, v, n, child)) <= Nodes(s) + Added(At(s, path), j, key, n, child)
  {
    AtFacts(s, path);
    AddedUnused(At(s, path), j, key, n, child, Nodes(s));
    InsertedFacts(At(s, path), j, key, v, n, child);
    GraftProper(s, path, Inserted(At(s, path), j, key, v, n, child), Added(At(s, path), j, key, n, child));
  }

  lemma FinishTrie(s: Shape, path: seq<int>, j: nat, key: Str, v: Value, n: IndexNode, child: IndexNode)
    requires HasPath(s, path) && Proper(s) && EndsAt(At(s, path), j, key)
    requires Unused(At(s, path), j, key, n, child, Nodes(s))
    ensures TrieHasPath(TrieOf(s), path)
    ensures TrieOf(Finished(s, path, j, key, v, n, child))
         == TrieGraft(TrieOf(s), path, Insert(TrieOf(At(s, path)), key, v))
  {
    AtFacts(s, path);
    InsertedTrie(At(s, path), j, key, v, n, child);
    GraftTrie(s, path, Inserted(At(s, path), j, key, v, n, child));
  }

  // ----- the index

  /** `root` heads a tree of the nodes `owned`, which hold what the shape `s` says. */
  ghost predicate IsIndex(root: IndexNode, s: Shape, owned: set<IndexNode>)
    reads owned`prefix, owned`values, owned`first, owned`last, owned`children
  {
    root in Roots(s, owned)
  }

  ghost function Roots(s: Shape, owned: set<IndexNode>): set<IndexNode>
    reads owned`prefix, owned`values, owned`first, owned`last, owned`children
  {
    set n | n in owned && forall k :: Asked(k) ==> IndexFacts(n, s, owned)
  }

  ghost predicate IndexFacts(root: IndexNode, s: Shape, owned: set<IndexNode>)
    reads owned`prefix, owned`values, owned`first, owned`last, owned`children
  {
    s.node == root && Proper(s) && Nodes(s) <= owned && Holding(Pairs(s), owned)
  }

  lemma UnfoldIndex(root: IndexNode, s: Shape, owned: set<IndexNode>)
    requires IsIndex(root, s, owned)
    ensures IndexFacts(root, s, owned)
  {
    assert Asked(0);
  }

  /** index_create */
  method IndexCreate() returns (root: IndexNode, ghost s: Shape)
    ensures fresh(root) && IsIndex(root, s, {root}) && TrieOf(s) == EMPTY
  {
    root := new IndexNode([]);
    s := Shape(root, [], [], map[]);
    assert Children(s.kids) == NoChildren();
    assert Pairs(s) == {(root, root.Contents())};
    assert Nodes(s) == {root};
    assert TrieOf(s).kids == map[];
  }

  /** index_insert: a walk down the arcs of the key, then one node rewritten in place. */
  method IndexInsert(root: IndexNode, key: Str, text: Str, priority: int, ghost s: Shape, ghost owned: set<IndexNode>)
    returns (duplicate: bool, ghost s': Shape, ghost n: IndexNode, ghost child: IndexNode)
    requires IsIndex(root, s, owned) && IsAscii(key)
    modifies owned
    ensures fresh(n) && fresh(child) && IsIndex(root, s', owned + {n, child})
    ensures TrieOf(s') == Insert(TrieOf(s), key, Value(text, priority))
    ensures duplicate <==> Known(TrieOf(s), key, text)
  {
    var half, leaf := TwoNodes();
    n, child := half, leaf;
    duplicate, s' := InsertWith(root, key, text, priority, half, leaf, s, owned);
  }

  /** Memory for the copy made by a split and for a leaf. */
  method TwoNodes() returns (n: IndexNode, child: IndexNode)
    ensures fresh(n) && fresh(child) && n != child
  {
    n := new IndexNode([]);
    child := new IndexNode([]);
  }

  /** IndexInsert with the memory for a split and a leaf at hand. */
  method InsertWith(root: IndexNode, key: Str, text: Str, priority: int, n: IndexNode, child: IndexNode,
                    ghost s: Shape, ghost owned: set<IndexNode>)
    returns (duplicate: bool, ghost s': Shape)
    requires IsIndex(root, s, owned) && IsAscii(key)
    requires n !in owned && child !in owned && n != child
    modifies owned, n, child
    ensures IsIndex(root, s', owned + {n, child})
    ensures TrieOf(s') == Insert(TrieOf(s), key, Value(text, priority))
    ensures duplicate <==> Known(TrieOf(s), key, text)
  {
    UnfoldIndex(root, s, owned);
    var node, i, j;
    ghost var path;
    node, i, j, path := Walk(root, key, Value(text, priority), s, owned);
    duplicate, s' := Finish(node, j, key[i..], text, priority, n, child, path, s, owned);
  }

  /** The descending loop: from the root along the arcs of the key to the node where the insertion ends. */
  method Walk(root: IndexNode, key: Str, ghost v: Value, ghost s: Shape, ghost owned: set<IndexNode>)
    returns (node: IndexNode, i: nat, j: nat, ghost path: seq<int>)
    requires s.node == root && Proper(s) && Holding(Pairs(s), owned) && IsAscii(key)
    ensures i <= |key| && HasPath(s, path) && At(s, path).node == node && node in owned
    ensures EndsAt(At(s, path), j, key[i..])
    ensures TrieHasPath(TrieOf(s), path)
    ensures Insert(TrieOf(s), key, v) == TrieGraft(TrieOf(s), path, Insert(TrieOf(At(s, path)), key[i..], v))
    ensures Lookup(TrieOf(s), key) == Lookup(TrieOf(At(s, path)), key[i..])
  {
    node, i, path := root, 0, [];
    ghost var cur, rest := s, key;
    WalkStart(s, key, v);
    while true
      invariant 0 <= i <= |key| && rest == key[i..] && IsAscii(rest)
      invariant node == cur.node && Walking(s, path, cur, key, rest, v)
      decreases |key| - i
    {
      WalkPair(s, path, cur, key, rest, v);
      assert node.Contents() == RecordOf(cur);
      j := CommonPrefix(node.prefix, key, i);
      assert i + j < |key| ==> rest[j] == key[i + j];
      if j < |node.prefix| || i + j == |key| || node.children[key[i + j]] == null {
        WalkFacts(s, path, cur, key, rest, v);
        return;
      }
      var ch := key[i + j];
      ghost var below := rest[j + 1..];
      SuffixStep(key, rest, i, j, i + j + 1);
      i := i + j + 1;
      node := node.children[ch];
      WalkStep(s, path, cur, j, key, rest, below, v);
      path, cur, rest := path + [ch], cur.kids[ch], below;
    }
  }

  /** Inserting the key here is inserting what is left of it at `cur`, and so is looking it up. */
  ghost predicate Walking(s: Shape, path: seq<int>, cur: Shape, key: Str, rest: Str, v: Value) {
    forall k :: Asked(k) ==> Reached(s, path, cur, key, rest, v)
  }

  ghost predicate Reached(s: Shape, path: seq<int>, cur: Shape, key: Str, rest: Str, v: Value) {
    && HasPath(s, path) && At(s, path) == cur && TrieHasPath(TrieOf(s), path)
    && Insert(TrieOf(s), key, v) == TrieGraft(TrieOf(s), path, Insert(TrieOf(cur), rest, v))
    && Lookup(TrieOf(s), key) == Lookup(TrieOf(cur), rest)
  }

  lemma WalkStart(s: Shape, key: Str, v: Value)
    ensures Walking(s, [], s, key, key, v)
  {
  }

  lemma WalkFacts(s: Shape, path: seq<int>, cur: Shape, key: Str, rest: Str, v: Value)
    requires Walking(s, path, cur, key, rest, v)
    ensures Reached(s, path, cur, key, rest, v)
  {
    assert Asked(0);
  }

  lemma WalkPair(s: Shape, path: seq<int>, cur: Shape, key: Str, rest: Str, v: Value)
    requires Proper(s) && Walking(s, path, cur, key, rest, v)
    ensures (cur.node, RecordOf(cur)) in Pairs(s) && IsAscii(cur.prefix)
  {
    WalkFacts(s, path, cur, key, rest, v);
    AtPair(s, path);
  }

  /** One arc further down. */
  lemma WalkStep(s: Shape, path: seq<int>, cur: Shape, j: nat, key: Str, rest: Str, below: Str, v: Value)
    requires Walking(s, path, cur, key, rest, v)
    requires j == |cur.prefix| == Common(cur.prefix, rest)
    requires j < |rest| && rest[j] in cur.kids && below == rest[j + 1..]
    ensures Walking(s, path + [rest[j]], cur.kids[rest[j]], key, below, v)
  {
    WalkFacts(s, path, cur, key, rest, v);
    Descend(cur, j, rest, below, v);
    PathStep(s, path, rest[j], Insert(TrieOf(cur.kids[rest[j]]), below, v));
  }

  lemma SuffixStep(key: Str, rest: Str, i: nat, j: nat, i': nat)
    requires i' == i + j + 1 <= |key| && rest == key[i..] && IsAscii(rest)
    ensures rest[j + 1..] == key[i'..] && IsAscii(rest[j + 1..])
  {
  }

  /** The insertion ends at `node`, which the arcs of `path` lead to; `n` and `child` are there to be used. */
  method Finish(node: IndexNode, j: nat, key: Str, text: Str, priority: int, n: IndexNode, child: IndexNode,
                ghost path: seq<int>, ghost s: Shape, ghost owned: set<IndexNode>)
    returns (duplicate: bool, ghost g: Shape)
    requires HasPath(s, path) && At(s, path).node == node && EndsAt(At(s, path), j, key)
    requires IndexFacts(s.node, s, owned)
    requires n !in owned && child !in owned && n != child
    modifies node, n, child
    ensures IsIndex(s.node, g, owned + {n, child})
    ensures TrieHasPath(TrieOf(s), path)
    ensures TrieOf(g) == TrieGraft(TrieOf(s), path, Insert(TrieOf(At(s, path)), key, Value(text, priority)))
    ensures duplicate <==> Known(TrieOf(At(s, path)), key, text)
  {
    ghost var cur, v := At(s, path), Value(text, priority);
    AtPair(s, path);
    AllButOne(Pairs(s), node, owned);
    duplicate := RewriteAmong(node, j, key, text, priority, n, child, cur, Pairs(s), owned - {node});
    g := FinishIndex(s, path, j, key, v, n, child, owned);
  }

  /** The rewritten node and the new ones make the shape after the insertion. */
  lemma FinishIndex(s: Shape, path: seq<int>, j: nat, key: Str, v: Value, n: IndexNode, child: IndexNode,
                    owned: set<IndexNode>)
    returns (g: Shape)
    requires HasPath(s, path) && Proper(s) && EndsAt(At(s, path), j, key) && Nodes(s) <= owned
    requires n !in owned && child !in owned && n != child
    requires At(s, path).node.Contents() == RecordOf(Inserted(At(s, path), j, key, v, n, child))
    requires j < |At(s, path).prefix| ==> n.Contents() == RecordOf(SplitLower(At(s, path), j, n))
    requires j < |key| ==> child.Contents() == RecordOf(LeafShape(child, key[j + 1..], v))
    requires HoldingBut(Pairs(s), At(s, path).node, owned - {At(s, path).node})
    ensures IsIndex(s.node, g, owned + {n, child})
    ensures TrieHasPath(TrieOf(s), path)
    ensures TrieOf(g) == TrieGraft(TrieOf(s), path, Insert(TrieOf(At(s, path)), key, v))
  {
    g := Finished(s, path, j, key, v, n, child);
    FinishHolding(s, path, j, key, v, n, child, owned);
    FinishProper(s, path, j, key, v, n, child);
    FinishTrie(s, path, j, key, v, n, child);
  }

  /** All but the pairs of one node hold. */
  ghost predicate HoldingBut(pairs: set<(IndexNode, Record)>, but: IndexNode, owned: set<IndexNode>)
    reads owned`prefix, owned`values, owned`first, owned`last, owned`children
  {
    forall p :: p in pairs && p.0 != but ==> p.0 in owned && p.0.Contents() == p.1
  }

  lemma AllButOne(pairs: set<(IndexNode, Record)>, but: IndexNode, owned: set<IndexNode>)
    requires Holding(pairs, owned)
    ensures HoldingBut(pairs, but, owned - {but})
  {
  }

  lemma ChangedHolding(s: Shape, j: nat, key: Str, v: Value, n: IndexNode, child: IndexNode)
    requires j <= |key|
    requires s.node.Contents() == RecordOf(Inserted(s, j, key, v, n, child))
    requires j < |s.prefix| ==> n.Contents() == RecordOf(SplitLower(s, j, n))
    requires j < |key| ==> child.Contents() == RecordOf(LeafShape(child, key[j + 1..], v))
    ensures Holding(Changed(s, j, key, v, n, child), {s.node, n, child})
  {
    var all := {s.node, n, child};
    OneHolds(s.node, RecordOf(Inserted(s, j, key, v, n, child)), all);
    if j < |s.prefix| {
      OneHolds(n, RecordOf(SplitLower(s, j, n)), all);
    }
    if j < |key| {
      OneHolds(child, RecordOf(LeafShape(child, key[j + 1..], v)), all);
    }
    UnionHolds({(s.node, RecordOf(Inserted(s, j, key, v, n, child)))}, NewLower(s, j, n), NewLeaf(j, key, v, child),
               all);
  }

  lemma OneHolds(n: IndexNode, r: Record, owned: set<IndexNode>)
    requires n in owned && n.Contents() == r
    ensures Holding({(n, r)}, owned)
  {
  }

  lemma UnionHolds(a: set<(IndexNode, Record)>, b: set<(IndexNode, Record)>, c: set<(IndexNode, Record)>,
                   owned: set<IndexNode>)
    requires Holding(a, owned) && Holding(b, owned) && Holding(c, owned)
    ensures Holding(a + b + c, owned)
  {
  }

  lemma FinishHolding(s: Shape, path: seq<int>, j: nat, key: Str, v: Value, n: IndexNode, child: IndexNode,
                      owned: set<IndexNode>)
    requires HasPath(s, path) && Proper(s) && EndsAt(At(s, path), j, key) && Nodes(s) <= owned
    requires Unused(At(s, path), j, key, n, child, Nodes(s))
    requires At(s, path).node.Contents() == RecordOf(Inserted(At(s, path), j, key, v, n, child))
    requires j < |At(s, path).prefix| ==> n.Contents() == RecordOf(SplitLower(At(s, path), j, n))
    requires j < |key| ==> child.Contents() == RecordOf(LeafShape(child, key[j + 1..], v))
    requires HoldingBut(Pairs(s), At(s, path).node, owned - {At(s, path).node})
    ensures Finished(s, path, j, key, v, n, child).node == s.node
    ensures Holding(Pairs(Finished(s, path, j, key, v, n, child)), owned + {n, child})
  {
    ChangedHolding(At(s, path), j, key, v, n, child);
    FinishPairs(s, path, j, key, v, n, child);
    AtFacts(s, path);
    var node := At(s, path).node;
    assert node in Nodes(At(s, path));
    EitherHolds(Pairs(Finished(s, path, j, key, v, n, child)), Changed(At(s, path), j, key, v, n, child), Pairs(s),
                node, {node, n, child}, owned - {node}, owned + {n, child});
  }

  /** Pairs that are among the changed ones or among the others hold if those do. */
  lemma EitherHolds(pairs: set<(IndexNode, Record)>, changed: set<(IndexNode, Record)>,
                    others: set<(IndexNode, Record)>, but: IndexNode,
                    a: set<IndexNode>, b: set<IndexNode>, owned: set<IndexNode>)
    requires forall p :: p in pairs ==> p in changed || (p in others && p.0 != but)
    requires Holding(changed, a) && HoldingBut(others, but, b) && a <= owned && b <= owned
    ensures Holding(pairs, owned)
  {
  }

  /** How far a node's prefix and the key from position `i` go together. */
  method CommonPrefix(prefix: Str, key: Str, i: nat) returns (j: nat)
    requires i <= |key|
    ensures j == Common(prefix, key[i..])
  {
    j := 0;
    while j < |prefix| && i + j < |key| && prefix[j] == key[i + j]
      invariant 0 <= j <= |prefix| && i + j <= |key|
      invariant prefix[..j] == key[i..i + j]
    {
      j := j + 1;
    }
    assert key[i..][..j] == key[i..i + j];
    CommonUnique(prefix, key[i..], j);
  }

  /** One round of the loop that goes on at a child. */
  lemma Descend(s: Shape, j: nat, rest: Str, below: Str, v: Value)
    requires j == |s.prefix| == Common(s.prefix, rest)
    requires j < |rest| && rest[j] in s.kids && below == rest[j + 1..]
    ensures var t := TrieOf(s);
            Insert(t, rest, v) == t.(kids := t.kids[rest[j] := Insert(TrieOf(s.kids[rest[j]]), below, v)])
    ensures Lookup(TrieOf(s), rest) == Lookup(TrieOf(s.kids[rest[j]]), below)
  {
    var t := TrieOf(s);
    assert t.prefix == rest[..j];
    assert rest[j..][1..] == below;
    assert t.kids[rest[j]] == TrieOf(s.kids[rest[j]]);
  }

  /** Every one of the nodes holds what is written beside it. */
  ghost predicate Holding(pairs: set<(IndexNode, Record)>, owned: set<IndexNode>)
    reads owned`prefix, owned`values, owned`first, owned`last, owned`children
  {
    forall p :: p in pairs ==> p.0 in owned && p.0.Contents() == p.1
  }
}
