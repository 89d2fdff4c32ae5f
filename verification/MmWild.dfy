/** Wildcard search in a mapped index file, and the list of values it grows. */
module MmWild {
  import opened Text
  import opened PatriciaTrie
  import opened Layout
  import opened Glob
  import opened WildSpec
  import opened WildSearch
  import opened MmReader

  type SortedValues = vs: seq<Value> | Sorted(vs) witness []

  /** add_value: in front of the first value whose priority is not smaller */
  method InsertValue(values: seq<Value>, v: Value) returns (r: seq<Value>)
    ensures r == AddValue(values, v)
  {
    var k := 0;
    while k < |values| && values[k].priority < v.priority
      invariant k <= |values|
      invariant forall i :: 0 <= i < k ==> values[i].priority < v.priority
    {
      k := k + 1;
    }
    AddValueAt(values, v, k);
    r := values[..k] + [v] + values[k..];
  }

  /** The pattern collected so far and the values found so far, ascending by priority. */
  class WildWalk {
    var buf: Str
    var out: SortedValues

    constructor ()
      ensures buf == [] && out == []
    {
      buf, out := [], [];
    }

    method Add(v: Value)
      modifies this`out
      ensures out == AddValue(old(out), v)
    {
      AddValueSorted(out, v);
      out := InsertValue(out, v);
    }

    /** index_mm_searchwild_allvalues */
    method AllValues(file: Str, node: MmNode, ghost p: nat, ghost t: IndexTrie)
      requires p in Places(file, t) && node == NodeAt(t, p)
      modifies this`out
      ensures out == AddFirst(old(out), t.values, |t.values|)
    {
      var i, pos := 0, node.values;
      while i < node.valueCount
        invariant i <= |t.values| && pos == ValuePos(t, p, i)
        invariant out == AddFirst(old(out), t.values, i)
      {
        ValueAt(file, p, t, i);
        AddFirstNext(old(out), t.values, i);
        var v, next := ReadValue(file, pos, t.values[i]);
        Add(v);
        i, pos := i + 1, next;
      }
    }

    /** The values of the node itself, if the collected pattern matches. */
    method Own(file: Str, node: MmNode, subkey: Str, ghost p: nat, ghost t: IndexTrie)
      requires p in Places(file, t) && node == NodeAt(t, p)
      modifies this`out
      ensures multiset(out) == multiset(old(out)) + When(Matching(subkey)(buf), t.values)
    {
      if node.valueCount > 0 {
        if FnMatch(buf, subkey) {
          End(file, node, p, t);
        }
      }
    }

    /** index_mm_searchwild_all: every key at and below the node, as a pattern for the rest of the query */
    method All(file: Str, node: MmNode, j: nat, subkey: Str, ghost p: nat, ghost t: IndexTrie)
      requires p in Places(file, t) && node == NodeAt(t, p) && j <= |node.prefix|
      modifies this
      ensures buf == old(buf)
      ensures multiset(out) == multiset(old(out)) + HitsFrom(t, old(buf) + t.prefix[j..], Matching(subkey))
      decreases t, 4
    {
      var pushed := |node.prefix| - j;
      buf := buf + node.prefix[j..];
      AllArcs(file, node, subkey, p, t);
      Own(file, node, subkey, p, t);
      buf := buf[..|buf| - pushed];
    }

    method AllArcs(file: Str, node: MmNode, subkey: Str, ghost p: nat, ghost t: IndexTrie)
      requires p in Places(file, t) && node == NodeAt(t, p)
      modifies this
      ensures buf == old(buf)
      ensures multiset(out) == multiset(old(out)) + KidHits(t, old(buf), Matching(subkey), CHILDMAX)
      decreases t, 3
    {
      ghost var base := multiset(out);
      ArcBounds(t);
      GatherStart(base, t, buf, Matching(subkey));
      var end := ArcRange(file, node, node.first, node.last, subkey, base, p, t);
      GatherEnd(multiset(out), base, t, buf, Matching(subkey), end);
    }

    method ArcRange(file: Str, node: MmNode, first: nat, last: nat, subkey: Str, ghost base: multiset<Value>,
                    ghost p: nat, ghost t: IndexTrie)
      returns (end: nat)
      requires p in Places(file, t) && Reads(node, t, p) && first <= CHILDMAX && last < CHILDMAX
      requires multiset(out) == Gathered(base, t, buf, Matching(subkey), first)
      modifies this
      ensures buf == old(buf) && last < end <= CHILDMAX
      ensures multiset(out) == Gathered(base, t, buf, Matching(subkey), end)
      decreases t, 2
    {
      end := first;
      while end <= last
        invariant end <= CHILDMAX && buf == old(buf) && multiset(out) == Gathered(base, t, buf, Matching(subkey), end)
        decreases last + 1 - end
      {
        NextArc(file, node, end, subkey, base, p, t);
        end := end + 1;
      }
    }

    method NextArc(file: Str, node: MmNode, ch: Byte, subkey: Str, ghost base: multiset<Value>,
                   ghost p: nat, ghost t: IndexTrie)
      requires p in Places(file, t) && Reads(node, t, p) && ch < CHILDMAX
      requires multiset(out) == Gathered(base, t, buf, Matching(subkey), ch)
      modifies this
      ensures buf == old(buf) && multiset(out) == Gathered(base, t, buf, Matching(subkey), ch + 1)
      decreases t, 1
    {
      assert Asked(0);
      KidHitsStep(t, buf, Matching(subkey), ch);
      Arc(file, node, ch, subkey, p, t);
    }

    method Arc(file: Str, node: MmNode, ch: Byte, subkey: Str, ghost p: nat, ghost t: IndexTrie)
      requires p in Places(file, t) && node == NodeAt(t, p)
      modifies this
      ensures buf == old(buf)
      ensures multiset(out) == multiset(old(out)) + ArcHits(t, old(buf), Matching(subkey), ch)
      decreases t, 0
    {
      var child := ReadChild(file, node, ch, p, t);
      if child.Some? {
        KidPlace(file, p, t, ch);
        WholePrefix(t.kids[ch], buf + [ch], Matching(subkey));
        buf := buf + [ch];
        All(file, child.value, 0, subkey, ChildStart(t, p, ch), t.kids[ch]);
        buf := buf[..|buf| - 1];
      }
    }

    /** Whether the walk ends in the node's prefix: at a wildcard, or where the key differs. */
    method Prefix(file: Str, node: MmNode, key: Str, ghost p: nat, ghost t: IndexTrie) returns (passed: bool)
      requires p in Places(file, t) && node == NodeAt(t, p) && buf == []
      modifies this
      ensures buf == []
      ensures passed <==> IsPlain(t.prefix) && t.prefix <= key
      ensures if passed then out == old(out) else multiset(out) == multiset(old(out)) + Collected(t, key)
    {
      var j := 0;
      while j < |node.prefix|
        invariant j <= |node.prefix| && IsPlain(node.prefix[..j]) && node.prefix[..j] <= key
        invariant out == old(out) && buf == []
      {
        var ch := node.prefix[j];
        if IsWild(ch) {
          PlainLengthUnique(t.prefix, j);
          WalkEnds(t, j, key);
          assert buf + t.prefix[j..] == t.prefix[j..];
          All(file, node, j, key[j..], p, t);
          return false;
        }
        if j == |key| || ch != key[j] {
          LeftBehind(t, j, key);
          return false;
        }
        Longer(node.prefix, j, key);
        j := j + 1;
      }
      assert node.prefix[..j] == node.prefix;
      passed := true;
    }

    /** The children on wildcard arcs. */
    method Wildcards(file: Str, node: MmNode, rest: Str, ghost p: nat, ghost t: IndexTrie)
      requires p in Places(file, t) && node == NodeAt(t, p) && buf == []
      modifies this
      ensures buf == []
      ensures multiset(out) == multiset(old(out)) + WildcardHits(t, rest)
    {
      Arc(file, node, STAR, rest, p, t);
      Arc(file, node, QUESTION, rest, p, t);
      Arc(file, node, OPEN, rest, p, t);
    }

    /** The values of a node where the query ends. */
    method End(file: Str, node: MmNode, ghost p: nat, ghost t: IndexTrie)
      requires p in Places(file, t) && node == NodeAt(t, p)
      modifies this`out
      ensures multiset(out) == multiset(old(out)) + multiset(t.values)
    {
      AddFirstAll(out, t.values);
      AllValues(file, node, p, t);
    }

    /** The end of the query, or the child on the arc it takes. */
    method Onward(file: Str, node: MmNode, rest: Str, ghost p: nat, ghost t: IndexTrie)
      returns (next: Option<MmNode>, below: Str, ghost q: nat, ghost kid: IndexTrie)
      requires p in Places(file, t) && node == NodeAt(t, p)
      modifies this`out
      ensures q in Places(file, kid)
      ensures next.Some? ==> next.value == NodeAt(kid, q) && |below| < |rest|
      ensures multiset(old(out)) + Beyond(t, rest) == multiset(out) + Ahead(next, kid, below)
    {
      next, below, q, kid := None, [], p, t;
      if rest == [] {
        End(file, node, p, t);
      } else {
        next := ReadChild(file, node, rest[0], p, t);
        below := rest[1..];
        if next.Some? {
          KidPlace(file, p, t, rest[0]);
          q, kid := ChildStart(t, p, rest[0]), t.kids[rest[0]];
        }
      }
    }

    /** One node of the literal walk: its wildcard children and what lies onward, unless the walk ends in its prefix. */
    method Step(file: Str, node: MmNode, key: Str, ghost p: nat, ghost t: IndexTrie)
      returns (next: Option<MmNode>, below: Str, ghost q: nat, ghost kid: IndexTrie)
      requires p in Places(file, t) && node == NodeAt(t, p) && buf == []
      modifies this
      ensures buf == [] && q in Places(file, kid)
      ensures next.Some? ==> next.value == NodeAt(kid, q) && |below| < |key|
      ensures multiset(old(out)) + Collected(t, key) == multiset(out) + Ahead(next, kid, below)
    {
      next, below, q, kid := None, [], p, t;
      var passed := Prefix(file, node, key, p, t);
      if passed {
        next, below, q, kid := Behind(file, node, key, p, t);
      }
    }

    /** ... behind the prefix. */
    method Behind(file: Str, node: MmNode, key: Str, ghost p: nat, ghost t: IndexTrie)
      returns (next: Option<MmNode>, below: Str, ghost q: nat, ghost kid: IndexTrie)
      requires p in Places(file, t) && node == NodeAt(t, p) && buf == [] && IsPlain(t.prefix) && t.prefix <= key
      modifies this
      ensures buf == [] && q in Places(file, kid)
      ensures next.Some? ==> next.value == NodeAt(kid, q) && |below| < |key|
      ensures multiset(old(out)) + Collected(t, key) == multiset(out) + Ahead(next, kid, below)
    {
      var rest := key[|node.prefix|..];
      WalkOn(t, key, rest);
      ghost var before := multiset(out);
      Wildcards(file, node, rest, p, t);
      next, below, q, kid := Onward(file, node, rest, p, t);
      Regroup(before, WildcardHits(t, rest), Beyond(t, rest));
    }

    /** index_mm_searchwild_node */
    method SearchNode(file: Str, root: Option<MmNode>, query: Str, ghost p0: nat, ghost t: IndexTrie)
      requires p0 in Places(file, t) && buf == []
      requires root.Some? ==> root.value == NodeAt(t, p0)
      modifies this
      ensures buf == []
      ensures multiset(out) == multiset(old(out)) + Ahead(root, t, query)
    {
      var node, key := root, query;
      ghost var p, cur: IndexTrie := p0, t;
      while node.Some?
        invariant p in Places(file, cur) && buf == []
        invariant node.Some? ==> node.value == NodeAt(cur, p)
        invariant multiset(old(out)) + Ahead(root, t, query) == multiset(out) + Ahead(node, cur, key)
        decreases node.Some?, |key|
      {
        node, key, p, cur := Step(file, node.value, key, p, cur);
      }
    }
  }

  /** What is still to be collected from the node the walk has reached. */
  ghost function Ahead<N>(node: Option<N>, t: IndexTrie, key: Str): multiset<Value> {
    if node.Some? then Collected(t, key) else multiset{}
  }

  /** index_mm_searchwild */
  method SearchWild(file: Str, query: Str, ghost t: IndexTrie) returns (out: seq<Value>)
    requires Fits(t) && file == FileImage(t)
    ensures Sorted(out) && multiset(out) == Collected(t, query)
  {
    var walk := new WildWalk();
    var root := OpenRoot(file, t);
    NothingInEmpty(query);
    walk.SearchNode(file, root, query, HEADER, t);
    out := walk.out;
  }

  lemma NothingInEmpty(q: Str)
    ensures Collected(EMPTY, q) == multiset{}
  {
    WalkPasses(EMPTY, q, q);
  }

  lemma LeftBehind(t: IndexTrie, j: nat, key: Str)
    requires j < |t.prefix| && IsPlain(t.prefix[..j]) && t.prefix[..j] <= key && !IsWild(t.prefix[j])
    requires j == |key| || t.prefix[j] != key[j]
    ensures Collected(t, key) == multiset{} && !(t.prefix <= key)
  {
    var n := PlainLength(t.prefix);
    PlainUpTo(t.prefix, n);
    PlainUpTo(t.prefix, j);
    assert j < n;
    if j < |key| {
      assert t.prefix[..n][j] != key[j];
    }
    WalkEnds(t, n, key);
  }

  lemma Longer(u: Str, j: nat, key: Str)
    requires j < |u| && j < |key| && u[..j] <= key && u[j] == key[j] && IsPlain(u[..j]) && !IsWild(u[j])
    ensures u[..j + 1] <= key && IsPlain(u[..j + 1])
  {
    assert u[..j + 1] == u[..j] + [u[j]];
  }

  /** The list after adding the first `i` values. */
  function AddFirst(vs: seq<Value>, added: seq<Value>, i: nat): seq<Value>
    requires i <= |added|
  {
    AddAll(vs, added[..i])
  }

  lemma AddFirstNext(vs: seq<Value>, added: seq<Value>, i: nat)
    requires i < |added|
    ensures AddFirst(vs, added, i + 1) == AddValue(AddFirst(vs, added, i), added[i])
  {
    assert added[..i + 1] == added[..i] + [added[i]];
    AddAllAppend(vs, added[..i], [added[i]]);
  }

  lemma AddFirstAll(vs: seq<Value>, added: seq<Value>)
    ensures AddFirst(vs, added, |added|) == AddAll(vs, added)
    ensures multiset(AddAll(vs, added)) == multiset(vs) + multiset(added)
  {
    assert added[..|added|] == added;
    AddAllMultiset(vs, added);
  }

  lemma WholePrefix(t: IndexTrie, path: Str, m: Selector)
    ensures HitsFrom(t, path + t.prefix[0..], m) == HitsIn(t, path, m)
  {
    assert t.prefix[0..] == t.prefix;
  }

  /** The hits on arcs below `c` have been added to `base`. */
  ghost function Gathered(base: multiset<Value>, t: IndexTrie, path: Str, m: Selector, c: int): multiset<Value>
    requires 0 <= c <= CHILDMAX
  {
    base + KidHits(t, path, m, c)
  }

  /** The bounds of the child range, without its definition. */
  lemma ArcBounds(t: IndexTrie)
    ensures 0 <= First(t) <= CHILDMAX && 0 <= Last(t) < CHILDMAX
  {
  }

  lemma GatherStart(base: multiset<Value>, t: IndexTrie, path: Str, m: Selector)
    ensures base == Gathered(base, t, path, m, First(t))
  {
    NoneBefore(t, path, m, First(t));
  }

  lemma GatherEnd(all: multiset<Value>, base: multiset<Value>, t: IndexTrie, path: Str, m: Selector, c: nat)
    requires Last(t) < c <= CHILDMAX && all == Gathered(base, t, path, m, c)
    ensures all == base + KidHits(t, path, m, CHILDMAX)
  {
    NoneAfter(t, path, m, c);
  }

  /** No hits on arcs outside the child range. */
  lemma {:induction false} NoneBefore(t: IndexTrie, path: Str, m: Selector, c: int)
    requires 0 <= c <= First(t)
    ensures KidHits(t, path, m, c) == multiset{}
    decreases c
  {
    if c > 0 {
      NoneBefore(t, path, m, c - 1);
    }
  }

  lemma {:induction false} NoneAfter(t: IndexTrie, path: Str, m: Selector, c: int)
    requires 0 <= c <= CHILDMAX && Last(t) < c
    ensures KidHits(t, path, m, CHILDMAX) == KidHits(t, path, m, c)
    decreases CHILDMAX - c
  {
    if c < CHILDMAX {
      NoneAfter(t, path, m, c + 1);
      KidHitsStep(t, path, m, c);
    }
  }
}
