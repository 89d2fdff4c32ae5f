/**
 libkmod's reader of an index file through a stream. A node is read whole: its values are put into a new list
 one by one with the same insertion as everywhere else, which reverses values of equal priority.
 */
module FileReader {
  import opened Text
  import opened PatriciaTrie
  import opened Layout
  import opened Glob
  import opened WildSpec
  import opened WildSearch
  import MmReader
  import opened MmWild

  datatype FileNode = FileNode(prefix: Str, first: int, last: int, children: seq<int>, values: SortedValues)

  function Relisted(vs: seq<Value>): (r: SortedValues) {
    AddAllSorted([], vs);
    AddAll([], vs)
  }

  /** The words of the child table. */
  ghost function Words(t: IndexTrie, p: nat): seq<int>
  {
    if First(t) <= Last(t) then WordsUpto(t, p, Last(t) + 1) else []
  }

  /** ... for the arcs before `c` */
  ghost function WordsUpto(t: IndexTrie, p: nat, c: int): seq<int>
    requires First(t) <= c <= CHILDMAX
    decreases c
  {
    if c == First(t) then [] else WordsUpto(t, p, c - 1) + [ChildWord(t, p, c - 1)]
  }

  lemma {:induction false} WordsUptoAt(t: IndexTrie, p: nat, c: int, k: int)
    requires First(t) <= k < c <= CHILDMAX
    ensures |WordsUpto(t, p, c)| == c - First(t) && WordsUpto(t, p, c)[k - First(t)] == ChildWord(t, p, k)
    decreases c
  {
    if c - 1 > First(t) {
      WordsUptoAt(t, p, c - 1, if k < c - 1 then k else First(t));
    }
  }

  lemma WordOf(t: IndexTrie, p: nat, c: int)
    requires First(t) <= c <= Last(t)
    ensures |Words(t, p)| == Last(t) - First(t) + 1 && Words(t, p)[c - First(t)] == ChildWord(t, p, c)
  {
    WordsUptoAt(t, p, Last(t) + 1, c);
  }

  /** What reading the node of `t` at position `p` gives. */
  ghost function NodeAt(t: IndexTrie, p: nat): FileNode {
    FileNode(t.prefix, First(t), Last(t), Words(t, p), Relisted(t.values))
  }

  /** The node is the one of `t` at `p`. */
  ghost predicate Reads(node: FileNode, t: IndexTrie, p: nat) {
    forall k :: Asked(k) ==> node == NodeAt(t, p)
  }

  function WordsAt(file: Str, pos: nat, n: nat): seq<int>
    requires pos + 4 * n <= |file|
  {
    if n == 0 then [] else WordsAt(file, pos, n - 1) + [WordAt(file, pos + 4 * (n - 1))]
  }

  /** read_u32s */
  method ReadWords(file: Str, pos: nat, n: nat) returns (r: seq<int>)
    requires pos + 4 * n <= |file|
    ensures r == WordsAt(file, pos, n)
  {
    r := [];
    var i := 0;
    while i < n
      invariant i <= n && r == WordsAt(file, pos, i)
    {
      r := r + [WordAt(file, pos + 4 * i)];
      i := i + 1;
    }
  }

  method ReadTable(file: Str, pos: nat, ghost p: nat, ghost t: IndexTrie)
    returns (first: int, last: int, words: seq<int>)
    requires p in Spots(file, t) && t.kids != map[] && pos == p + |PrefixImage(t)|
    ensures first == First(t) && last == Last(t) && first <= last && words == Words(t, p)
  {
    MmReader.TableHead(file, p, t, pos);
    TableWords(file, pos, p, t, Last(t) + 1);
    first, last := file[pos], file[pos + 1];
    words := ReadWords(file, pos + 2, last - first + 1);
  }

  lemma {:induction false} TableWords(file: Str, pos: nat, p: nat, t: IndexTrie, c: int)
    requires p in Spots(file, t) && t.kids != map[] && pos == p + |PrefixImage(t)|
    requires First(t) <= c <= Last(t) + 1
    ensures pos + 2 + 4 * (c - First(t)) <= |file|
    ensures WordsAt(file, pos + 2, c - First(t)) == WordsUpto(t, p, c)
    decreases c
  {
    if c > First(t) {
      TableWords(file, pos, p, t, c - 1);
      SpotIsImage(file, p, t);
      TableWord(file, p, t, c - 1);
    } else {
      MmReader.TableHead(file, p, t, pos);
    }
  }

  lemma ArcInRange(t: IndexTrie, ch: int)
    ensures ch in t.kids ==> First(t) <= ch <= Last(t)
  {
    RangeOf(t, 0, 0);
  }

  method ReadValues(file: Str, pos: nat, ghost p: nat, ghost t: IndexTrie) returns (values: SortedValues)
    requires p in Spots(file, t) && t.values != []
    requires pos == CountPos(t, p)
    ensures values == Relisted(t.values)
  {
    ListHead(file, pos, p, t);
    values := ReadList(file, WordAt(file, pos), pos + 4, p, t);
    AddFirstAll([], t.values);
  }

  lemma ListHead(file: Str, pos: nat, p: nat, t: IndexTrie)
    requires p in Spots(file, t) && t.values != []
    requires pos == CountPos(t, p)
    ensures pos + 4 <= |file| && WordAt(file, pos) == |t.values| && pos + 4 == MmReader.ValuePos(t, p, 0)
  {
    MmReader.ValueHead(file, p, t, pos);
  }

  method ReadList(file: Str, count: nat, start: nat, ghost p: nat, ghost t: IndexTrie) returns (values: SortedValues)
    requires p in Spots(file, t) && count == |t.values| && start == MmReader.ValuePos(t, p, 0)
    ensures values == AddFirst([], t.values, |t.values|)
  {
    var i, at := 0, start;
    values := [];
    while i < count
      invariant i <= |t.values| && at == MmReader.ValuePos(t, p, i)
      invariant values == AddFirst([], t.values, i)
    {
      MmReader.ValueAt(file, p, t, i);
      AddFirstNext([], t.values, i);
      var v;
      v, at := MmReader.ReadValue(file, at, t.values[i]);
      AddValueSorted(values, v);
      values := InsertValue(values, v);
      i := i + 1;
    }
  }

  /** index_read */
  method ReadNode(file: Str, offset: nat, ghost p: nat, ghost t: IndexTrie) returns (r: Option<FileNode>)
    requires offset % OFFSET_LIMIT == 0 || (p in Spots(file, t) && offset == Tagged(p, t))
    ensures r == if offset % OFFSET_LIMIT == 0 then None else Some(NodeAt(t, p))
  {
    var pos := offset % OFFSET_LIMIT;
    MmReader.OffsetInside(file, offset, p, t);
    if pos == 0 {
      return None;
    }
    SpotParts(file, p, t);
    TaggedParts(p, t);
    RangeOf(t, 0, 0);
    var prefix: Str := [];
    if HasFlag(offset, FLAG_PREFIX) {
      prefix, pos := MmReader.ReadChars(file, pos, t.prefix);
    }
    assert pos == p + |PrefixImage(t)|;
    var first, last, words := CHILDMAX, 0, [];
    if HasFlag(offset, FLAG_CHILDS) {
      first, last, words := ReadTable(file, pos, p, t);
      if first > last {
        return None;
      }
      pos := pos + 2 + 4 * (last - first + 1);
    }
    ChildTableSize(t, p);
    assert pos == CountPos(t, p);
    var values: SortedValues := [];
    if HasFlag(offset, FLAG_VALUES) {
      values := ReadValues(file, pos, p, t);
    }
    r := Some(FileNode(prefix, first, last, words, values));
  }

  /** index_readchild */
  method ReadChild(file: Str, node: FileNode, ch: int, ghost p: nat, ghost t: IndexTrie) returns (r: Option<FileNode>)
    requires p in Places(file, t) && node == NodeAt(t, p) && 0 <= ch < 256
    ensures ch !in t.kids ==> r == None
    ensures ch in t.kids ==> r == Some(NodeAt(t.kids[ch], ChildStart(t, p, ch)))
  {
    r := None;
    ArcInRange(t, ch);
    if node.first <= ch <= node.last {
      ghost var w, q, kid := ChildTarget(file, p, t, ch);
      var offset: nat := node.children[ch - node.first];
      r := ReadNode(file, offset, q, kid);
    }
  }

  lemma ChildTarget(file: Str, p: nat, t: IndexTrie, ch: int) returns (w: nat, q: nat, kid: IndexTrie)
    requires p in Places(file, t) && First(t) <= ch <= Last(t)
    ensures ch - First(t) < |Words(t, p)| && Words(t, p)[ch - First(t)] == w
    ensures if ch in t.kids then
              && w % OFFSET_LIMIT != 0 && w == Tagged(q, kid) && q in Places(file, kid)
              && kid == t.kids[ch] && q == ChildStart(t, p, ch)
            else w == 0
  {
    WordOf(t, p, ch);
    w, q, kid := ChildWord(t, p, ch), p, t;
    if ch in t.kids {
      q, kid := ChildStart(t, p, ch), t.kids[ch];
      MmReader.KidPlace(file, p, t, ch);
      TaggedParts(q, kid);
    }
  }

  /** index_file_open and index_readroot; an index without entries still has a root node here */
  method OpenRoot(file: Str, ghost t: IndexTrie) returns (r: Option<FileNode>)
    requires Fits(t) && file == FileImage(t)
    ensures HEADER in Places(file, t)
    ensures r == Some(NodeAt(t, HEADER))
  {
    FileStored(t);
    TaggedParts(HEADER, t);
    var root := MmReader.Open(file);
    assert root.Some?;
    r := ReadNode(file, root.value, HEADER, t);
  }

  /** index_search */
  method Search(file: Str, key: Str, ghost t: IndexTrie) returns (r: Option<Str>)
    requires Fits(t) && file == FileImage(t)
    ensures r == MmReader.FirstText(Relisted(Lookup(t, key)))
  {
    var node := OpenRoot(file, t);
    var rest := key;
    ghost var p: nat, cur: IndexTrie := HEADER, t;
    while node.Some?
      invariant p in Places(file, cur)
      invariant node.Some? ==> node.value == NodeAt(cur, p) && Lookup(t, key) == Lookup(cur, rest)
      invariant node.None? ==> Lookup(t, key) == []
      decreases node.Some?, |rest|
    {
      var b := MmReader.HasPrefix(rest, node.value.prefix);
      if !b {
        return None;
      }
      rest := rest[|node.value.prefix|..];
      if rest == [] {
        return MmReader.FirstText(node.value.values);
      }
      var child := ReadChild(file, node.value, rest[0], p, cur);
      if child.Some? {
        PlaceKid(file, p, cur, rest[0]);
        p, cur := ChildStart(cur, p, rest[0]), cur.kids[rest[0]];
      }
      node, rest := child, rest[1..];
    }
    r := None;
  }

  // ----- wildcard search

  /** The pattern collected so far and the values found so far, ascending by priority. */
  class FileWalk {
    var buf: Str
    var out: SortedValues

    constructor ()
      ensures buf == [] && out == []
    {
      buf, out := [], [];
    }

    /** index_searchwild__allvalues */
    method AllValues(node: FileNode)
      modifies this`out
      ensures multiset(out) == multiset(old(out)) + multiset(node.values)
    {
      var i := 0;
      while i < |node.values|
        invariant i <= |node.values| && out == AddFirst(old(out), node.values, i)
      {
        AddFirstNext(old(out), node.values, i);
        AddValueSorted(out, node.values[i]);
        out := InsertValue(out, node.values[i]);
        i := i + 1;
      }
      AddFirstAll(old(out), node.values);
    }

    /** The values of a node, added if `when`. */
    method Own(node: FileNode, when: bool, ghost p: nat, ghost t: IndexTrie)
      requires node == NodeAt(t, p)
      modifies this`out
      ensures multiset(out) == multiset(old(out)) + When(when, t.values)
    {
      AddFirstAll([], t.values);
      if when {
        AllValues(node);
      }
    }

    /** index_searchwild__all */
    method All(file: Str, node: FileNode, j: nat, subkey: Str, ghost p: nat, ghost t: IndexTrie)
      requires p in Places(file, t) && node == NodeAt(t, p) && j <= |node.prefix|
      modifies this
      ensures buf == old(buf)
      ensures multiset(out) == multiset(old(out)) + HitsFrom(t, old(buf) + t.prefix[j..], Matching(subkey))
      decreases t, 4
    {
      var pushed := |node.prefix| - j;
      buf := buf + node.prefix[j..];
      AllArcs(file, node, subkey, p, t);
      Own(node, FnMatch(buf, subkey), p, t);
      buf := buf[..|buf| - pushed];
    }

    method AllArcs(file: Str, node: FileNode, subkey: Str, ghost p: nat, ghost t: IndexTrie)
      requires p in Places(file, t) && node == NodeAt(t, p)
      modifies this
      ensures buf == old(buf)
      ensures multiset(out) == multiset(old(out)) + KidHits(t, old(buf), Matching(subkey), CHILDMAX)
      decreases t, 3
    {
      ghost var base := multiset(out);
      ArcBounds(t);
      GatherStart(base, t, buf, Matching(subkey));
      var end := ArcRange(file, node, node.first, node.last, subkey, base, p, t);
      GatherEnd(multiset(out), base, t, buf, Matching(subkey), end);
    }

    method ArcRange(file: Str, node: FileNode, first: nat, last: nat, subkey: Str, ghost base: multiset<Value>,
                    ghost p: nat, ghost t: IndexTrie)
      returns (end: nat)
      requires p in Places(file, t) && Reads(node, t, p) && first <= CHILDMAX && last < CHILDMAX
      requires multiset(out) == Gathered(base, t, buf, Matching(subkey), first)
      modifies this
      ensures buf == old(buf) && last < end <= CHILDMAX
      ensures multiset(out) == Gathered(base, t, buf, Matching(subkey), end)
      decreases t, 2
    {
      end := first;
      while end <= last
        invariant end <= CHILDMAX && buf == old(buf) && multiset(out) == Gathered(base, t, buf, Matching(subkey), end)
        decreases last + 1 - end
      {
        NextArc(file, node, end, subkey, base, p, t);
        end := end + 1;
      }
    }

    method NextArc(file: Str, node: FileNode, ch: Byte, subkey: Str, ghost base: multiset<Value>,
                   ghost p: nat, ghost t: IndexTrie)
      requires p in Places(file, t) && Reads(node, t, p) && ch < CHILDMAX
      requires multiset(out) == Gathered(base, t, buf, Matching(subkey), ch)
      modifies this
      ensures buf == old(buf) && multiset(out) == Gathered(base, t, buf, Matching(subkey), ch + 1)
      decreases t, 1
    {
      assert Asked(0);
      KidHitsStep(t, buf, Matching(subkey), ch);
      Arc(file, node, ch, subkey, p, t, Matching(subkey));
    }

    method Arc(file: Str, node: FileNode, ch: Byte, subkey: Str, ghost p: nat, ghost t: IndexTrie,
                   ghost m: Selector)
      requires p in Places(file, t) && node == NodeAt(t, p) && m == Matching(subkey)
      modifies this
      ensures buf == old(buf)
      ensures multiset(out) == multiset(old(out)) + ArcHits(t, old(buf), m, ch)
      decreases t, 0, 0
    {
      var child := ReadChild(file, node, ch, p, t);
      if child.Some? {
        MmReader.KidPlace(file, p, t, ch);
        WholePrefix(t.kids[ch], buf + [ch], m);
        buf := buf + [ch];
        All(file, child.value, 0, subkey, ChildStart(t, p, ch), t.kids[ch]);
        buf := buf[..|buf| - 1];
      }
    }

    /** Whether the walk ends in the node's prefix: at a wildcard, or where the key differs. */
    method Prefix(file: Str, node: FileNode, key: Str, ghost p: nat, ghost t: IndexTrie) returns (passed: bool)
      requires p in Places(file, t) && node == NodeAt(t, p) && buf == []
      modifies this
      ensures buf == []
      ensures passed <==> IsPlain(t.prefix) && t.prefix <= key
      ensures if passed then out == old(out) else multiset(out) == multiset(old(out)) + Collected(t, key)
    {
      var j := 0;
      while j < |node.prefix|
        invariant j <= |node.prefix| && IsPlain(node.prefix[..j]) && node.prefix[..j] <= key
        invariant out == old(out) && buf == []
      {
        var ch := node.prefix[j];
        if IsWild(ch) {
          AtWildcard(file, node, j, key, p, t);
          return false;
        }
        if j == |key| || ch != key[j] {
          LeftBehind(t, j, key);
          return false;
        }
        Longer(node.prefix, j, key);
        j := j + 1;
      }
      assert node.prefix[..j] == node.prefix;
      passed := true;
    }

    /** The end of the walk at a wildcard inside the prefix. */
    method AtWildcard(file: Str, node: FileNode, j: nat, key: Str, ghost p: nat, ghost t: IndexTrie)
      requires p in Places(file, t) && node == NodeAt(t, p) && buf == [] && j < |node.prefix| && IsWild(node.prefix[j])
      requires IsPlain(node.prefix[..j]) && node.prefix[..j] <= key
      modifies this
      ensures buf == [] && !IsPlain(t.prefix) && multiset(out) == multiset(old(out)) + Collected(t, key)
    {
      PlainLengthUnique(t.prefix, j);
      WalkEnds(t, j, key);
      assert buf + t.prefix[j..] == t.prefix[j..];
      All(file, node, j, key[j..], p, t);
    }

    /** The children on wildcard arcs. */
    method Wildcards(file: Str, node: FileNode, rest: Str, ghost p: nat, ghost t: IndexTrie)
      requires p in Places(file, t) && node == NodeAt(t, p) && buf == []
      modifies this
      ensures buf == []
      ensures multiset(out) == multiset(old(out)) + WildcardHits(t, rest)
    {
      Arc(file, node, STAR, rest, p, t, Matching(rest));
      Arc(file, node, QUESTION, rest, p, t, Matching(rest));
      Arc(file, node, OPEN, rest, p, t, Matching(rest));
    }

    /** The end of the query, or the child on the arc it takes. */
    method Onward(file: Str, node: FileNode, rest: Str, ghost p: nat, ghost t: IndexTrie)
      returns (next: Option<FileNode>, below: Str, ghost q: nat, ghost kid: IndexTrie)
      requires p in Places(file, t) && node == NodeAt(t, p)
      modifies this`out
      ensures q in Places(file, kid)
      ensures next.Some? ==> next.value == NodeAt(kid, q) && |below| < |rest|
      ensures multiset(old(out)) + Beyond(t, rest) == multiset(out) + Ahead(next, kid, below)
    {
      next, below, q, kid := None, [], p, t;
      if rest == [] {
        Own(node, true, p, t);
      } else {
        next := ReadChild(file, node, rest[0], p, t);
        below := rest[1..];
        if next.Some? {
          MmReader.KidPlace(file, p, t, rest[0]);
          q, kid := ChildStart(t, p, rest[0]), t.kids[rest[0]];
        }
      }
    }

    /** One node of the literal walk. */
    method Step(file: Str, node: FileNode, key: Str, ghost p: nat, ghost t: IndexTrie)
      returns (next: Option<FileNode>, below: Str, ghost q: nat, ghost kid: IndexTrie)
      requires p in Places(file, t) && node == NodeAt(t, p) && buf == []
      modifies this
      ensures buf == [] && q in Places(file, kid)
      ensures next.Some? ==> next.value == NodeAt(kid, q) && |below| < |key|
      ensures multiset(old(out)) + Collected(t, key) == multiset(out) + Ahead(next, kid, below)
    {
      next, below, q, kid := None, [], p, t;
      var passed := Prefix(file, node, key, p, t);
      if passed {
        next, below, q, kid := Behind(file, node, key, p, t);
      }
    }

    /** ... behind the prefix. */
    method Behind(file: Str, node: FileNode, key: Str, ghost p: nat, ghost t: IndexTrie)
      returns (next: Option<FileNode>, below: Str, ghost q: nat, ghost kid: IndexTrie)
      requires p in Places(file, t) && node == NodeAt(t, p) && buf == [] && IsPlain(t.prefix) && t.prefix <= key
      modifies this
      ensures buf == [] && q in Places(file, kid)
      ensures next.Some? ==> next.value == NodeAt(kid, q) && |below| < |key|
      ensures multiset(old(out)) + Collected(t, key) == multiset(out) + Ahead(next, kid, below)
    {
      var rest := key[|node.prefix|..];
      WalkOn(t, key, rest);
      ghost var before := multiset(out);
      Wildcards(file, node, rest, p, t);
      next, below, q, kid := Onward(file, node, rest, p, t);
      Regroup(before, WildcardHits(t, rest), Beyond(t, rest));
    }

    /** index_searchwild__node */
    method SearchNode(file: Str, root: FileNode, query: Str, ghost p0: nat, ghost t: IndexTrie)
      requires p0 in Places(file, t) && buf == [] && root == NodeAt(t, p0)
      modifies this
      ensures buf == []
      ensures multiset(out) == multiset(old(out)) + Collected(t, query)
    {
      var node, key := Some(root), query;
      ghost var p, cur: IndexTrie := p0, t;
      while node.Some?
        invariant p in Places(file, cur) && buf == []
        invariant node.Some? ==> node.value == NodeAt(cur, p)
        invariant multiset(old(out)) + Collected(t, query) == multiset(out) + Ahead(node, cur, key)
        decreases node.Some?, |key|
      {
        node, key, p, cur := Step(file, node.value, key, p, cur);
      }
    }
  }

  /** index_searchwild */
  method SearchWild(file: Str, query: Str, ghost t: IndexTrie) returns (out: seq<Value>)
    requires Fits(t) && file == FileImage(t)
    ensures Sorted(out) && multiset(out) == Collected(t, query)
  {
    var walk := new FileWalk();
    var root := OpenRoot(file, t);
    walk.SearchNode(file, root.value, query, HEADER, t);
    out := walk.out;
  }

  // ----- what the exact searches return, by insertion order

  /**
   The head of a list that was read back and built again is a value of least priority,
   and of those the one inserted first. `k` is its place in the insertion sequence.
   */
  lemma {:induction false} HeadIsEarliestOfLeast(added: seq<Value>) returns (k: nat)
    requires added != []
    ensures IsEarliest(added, k) && Relisted(AddAll([], added)) != [] && Relisted(AddAll([], added))[0] == added[k]
  {
    k := EarliestOfLeast(added);
    var once := AddAll([], added);
    AddAllMultiset([], added);
    AddAllSorted([], added);
    assert |multiset(once)| == |multiset(added)|;
    var m := HeadIsLatestOfLeast(once);
    LastOfLeastUnique(once, m, LastOfLeast(once));
  }

  /** The last value of the least priority in an ascending list. */
  function LastOfLeast(vs: seq<Value>): (m: nat)
    requires vs != [] && Sorted(vs)
    ensures m < |vs| && vs[m].priority == vs[0].priority
    ensures forall i :: m < i < |vs| ==> vs[m].priority < vs[i].priority
  {
    if |vs| > 1 && vs[1].priority == vs[0].priority then LastOfLeast(vs[1..]) + 1 else 0
  }

  lemma LastOfLeastUnique(vs: seq<Value>, a: nat, b: nat)
    requires a < |vs| && b < |vs|
    requires forall i :: 0 <= i < |vs| ==> vs[a].priority <= vs[i].priority
    requires forall i :: 0 <= i < |vs| ==> vs[b].priority <= vs[i].priority
    requires forall i :: a < i < |vs| ==> vs[a].priority < vs[i].priority
    requires forall i :: b < i < |vs| ==> vs[b].priority < vs[i].priority
    ensures a == b
  {
    assert vs[a].priority <= vs[b].priority <= vs[a].priority;
  }

  /** The first value of least priority. */
  ghost predicate IsEarliest(added: seq<Value>, k: nat) {
    && k < |added|
    && (forall i :: 0 <= i < k ==> added[k].priority < added[i].priority)
    && (forall i :: k < i < |added| ==> added[k].priority <= added[i].priority)
  }

  lemma EarliestAfterAdd(front: seq<Value>, last: Value, k: nat)
    requires IsEarliest(front, k)
    ensures IsEarliest(front + [last], if last.priority < front[k].priority then |front| else k)
  {
    var added := front + [last];
    assert added[|front|] == last;
    assert forall i :: 0 <= i < |front| ==> added[i] == front[i];
    if last.priority < front[k].priority {
      forall i | 0 <= i < |front| ensures last.priority < added[i].priority {
        assert i == k || front[k].priority <= front[i].priority;
      }
    }
  }

  lemma {:induction false} EarliestOfLeast(added: seq<Value>) returns (k: nat)
    requires added != []
    ensures Sorted(AddAll([], added)) && AddAll([], added) != [] && IsEarliest(added, k)
    ensures AddAll([], added)[LastOfLeast(AddAll([], added))] == added[k]
    decreases |added|
  {
    var front, last := added[..|added| - 1], added[|added| - 1];
    assert added == front + [last];
    var before := AddedLast(front, last);
    if front == [] {
      k := 0;
    } else {
      k := EarliestOfLeast(front);
      LastOfLeastAfterAdd(before, last);
      EarliestAfterAdd(front, last, k);
      k := if last.priority < front[k].priority then |front| else k;
    }
  }

  lemma AddedLast(front: seq<Value>, last: Value) returns (before: SortedValues)
    ensures before == AddAll([], front) && Sorted(AddAll([], front + [last]))
    ensures AddAll([], front + [last]) == AddValue(before, last)
  {
    AddAllAppend([], front, [last]);
    AddAllSorted([], front);
    AddAllSorted([], front + [last]);
    before := AddAll([], front);
  }

  lemma {:induction false} LastOfLeastAfterAdd(vs: seq<Value>, v: Value)
    requires vs != [] && Sorted(vs) && Sorted(AddValue(vs, v))
    ensures AddValue(vs, v)[LastOfLeast(AddValue(vs, v))]
         == if v.priority < vs[0].priority then v else vs[LastOfLeast(vs)]
  {
    var r := AddValue(vs, v);
    if v.priority <= vs[0].priority {
      assert r[1..] == vs;
    } else if |vs| > 1 {
      AddValueSorted(vs[1..], v);
      if vs[1].priority == vs[0].priority {
        LastOfLeastAfterAdd(vs[1..], v);
        assert r[1..] == AddValue(vs[1..], v);
      } else {
        assert r[1].priority > r[0].priority;
      }
    }
  }
}
