/** Writing the listing of a mapped index through a fixed-size buffer. */
module Dump {
  import opened Text
  import opened PatriciaTrie
  import opened Layout
  import opened MmReader
  import opened Listing

  const BUFFER_SIZE := 4096

  /** A buffered file; `written` is what has reached the descriptor, `total` includes what waits in the buffer. */
  class WriteBuffer {
    const bytes: array<Byte>
    var len: nat
    var written: Str
    ghost var total: Str

    ghost predicate Valid()
      reads this, bytes
    {
      bytes.Length == BUFFER_SIZE && len < BUFFER_SIZE && total == Accepted()
    }

    /** What has been written to the buffer so far. */
    ghost function Accepted(): Str
      requires len <= bytes.Length
      reads this, bytes
    {
      written + bytes[..len]
    }

    constructor ()
      ensures Valid() && fresh(bytes) && written == [] && total == []
    {
      bytes := new Byte[BUFFER_SIZE](_ => 0);
      len, written, total := 0, [], [];
    }

    /** wrtbuf_flush */
    method Flush()
      requires bytes.Length == BUFFER_SIZE && len <= BUFFER_SIZE && total == written + bytes[..len]
      modifies this
      ensures Valid() && len == 0 && written == total == old(total)
    {
      if len > 0 {
        written := written + bytes[..len];
        len := 0;
      }
    }

    /** The last flush. */
    method Close() returns (all: Str)
      requires Valid()
      modifies this
      ensures all == written == total == old(total)
    {
      Flush();
      all := written;
    }

    /** wrtbuf_write: fills the buffer piece by piece, flushing it whenever it is full */
    method Write(p: Str)
      requires Valid()
      modifies this, bytes
      ensures Valid() && total == old(total) + p
    {
      var done := Piece(p, 0);
      while done < |p|
        invariant Valid() && done <= |p|
        invariant total == old(total) + p[..done]
      {
        done := Piece(p, done);
      }
      assert p[..|p|] == p;
    }

    method Piece(p: Str, from: nat) returns (done: nat)
      requires Valid() && from <= |p|
      modifies this, bytes
      ensures Valid() && from <= done <= |p| && (from < |p| ==> from < done)
      ensures total == old(total) + p[from..done]
    {
      var n := if BUFFER_SIZE - len < |p| - from then BUFFER_SIZE - len else |p| - from;
      Copy(p, from, n);
      len := len + n;
      done := from + n;
      total := total + p[from..done];
      if len == BUFFER_SIZE {
        Flush();
      }
    }

    /** memcpy to the end of the used part */
    method Copy(p: Str, from: nat, n: nat)
      requires Valid() && from + n <= |p| && len + n <= BUFFER_SIZE
      modifies bytes
      ensures bytes[..len + n] == old(bytes[..len]) + p[from..from + n]
    {
      forall i | 0 <= i < n {
        bytes[len + i] := p[from + i];
      }
    }
  }

  /** The path from the root to the node being listed. */
  class PathBuffer {
    var buf: Str

    constructor ()
      ensures buf == []
    {
      buf := [];
    }

    /** The lines of one node. */
    method DumpValues(file: Str, node: MmNode, w: WriteBuffer, ghost p: nat, ghost t: IndexTrie)
      requires p in Places(file, t) && node == NodeAt(t, p) && w.Valid()
      modifies w, w.bytes
      ensures w.Valid() && w.total == old(w.total) + Render(OwnRecords(buf, t.values))
    {
      ghost var rs := OwnRecords(buf, t.values);
      var i, pos := 0, node.values;
      while i < node.valueCount
        invariant i <= |t.values| && pos == ValuePos(t, p, i) && w.Valid()
        invariant w.total == old(w.total) + RenderFirst(rs, i)
      {
        ValueAt(file, p, t, i);
        var v, next := ReadValue(file, pos, t.values[i]);
        RenderNext(old(w.total), rs, i);
        DumpLine(v, w);
        i, pos := i + 1, next;
      }
      assert rs[..|rs|] == rs;
    }

    method DumpLine(v: Value, w: WriteBuffer)
      requires w.Valid()
      modifies w, w.bytes
      ensures w.Valid() && w.total == old(w.total) + Line(Entry(buf, v))
    {
      ghost var before := w.total;
      w.Write(buf);
      w.Write([SPACE]);
      w.Write(v.text);
      w.Write([NEWLINE]);
      assert before + buf + [SPACE] + v.text + [NEWLINE] == before + Line(Entry(buf, v));
    }

    /** index_mm_dump_node: the node's lines, then its children's; the path is left as it was */
    method DumpNode(file: Str, node: MmNode, w: WriteBuffer, ghost p: nat, ghost t: IndexTrie)
      requires p in Places(file, t) && node == NodeAt(t, p) && w.Valid()
      modifies this, w, w.bytes
      ensures buf == old(buf) && w.Valid()
      ensures w.total == old(w.total) + Render(Records(t, old(buf)))
      decreases t, 2
    {
      var pushed := |node.prefix|;
      buf := buf + node.prefix;
      Joined(w.total, OwnRecords(buf, t.values), KidRecords(t, buf, CHILDMAX));
      DumpValues(file, node, w, p, t);
      DumpKids(file, node, w, p, t);
      buf := buf[..|buf| - pushed];
    }

    method DumpKids(file: Str, node: MmNode, w: WriteBuffer, ghost p: nat, ghost t: IndexTrie)
      requires p in Places(file, t) && node == NodeAt(t, p) && w.Valid()
      modifies this, w, w.bytes
      ensures buf == old(buf) && w.Valid()
      ensures w.total == old(w.total) + RenderKids(t, old(buf), CHILDMAX)
      decreases t, 1
    {
      KidsStart(w.total, t, buf, node.first);
      ghost var before := w.total;
      var end := DumpRange(file, node, node.first, node.last, w, before, p, t);
      KidsEnd(w.total, before, t, buf, end);
    }

    method DumpRange(file: Str, node: MmNode, first: nat, last: nat, w: WriteBuffer,
                     ghost before: Str, ghost p: nat, ghost t: IndexTrie)
      returns (end: nat)
      requires p in Places(file, t) && Reads(node, t, p) && w.Valid() && first <= CHILDMAX && last < CHILDMAX
      requires w.total == KidsListed(before, t, buf, first)
      modifies this, w, w.bytes
      ensures buf == old(buf) && w.Valid() && last < end <= CHILDMAX && w.total == KidsListed(before, t, old(buf), end)
      decreases t, 0, 2
    {
      end := first;
      while end <= last
        invariant end <= CHILDMAX && buf == old(buf) && w.Valid() && w.total == KidsListed(before, t, old(buf), end)
        decreases last + 1 - end
      {
        DumpNext(file, node, end, w, before, p, t);
        end := end + 1;
      }
    }

    method DumpNext(file: Str, node: MmNode, ch: Byte, w: WriteBuffer,
                    ghost before: Str, ghost p: nat, ghost t: IndexTrie)
      requires p in Places(file, t) && Reads(node, t, p) && w.Valid() && ch < CHILDMAX
      requires w.total == KidsListed(before, t, buf, ch)
      modifies this, w, w.bytes
      ensures buf == old(buf) && w.Valid() && w.total == KidsListed(before, t, old(buf), ch + 1)
      decreases t, 0, 1
    {
      assert Asked(0);
      KidsNext(before, t, buf, ch);
      DumpKid(file, node, ch, w, p, t);
    }

    method DumpKid(file: Str, node: MmNode, ch: Byte, w: WriteBuffer, ghost p: nat, ghost t: IndexTrie)
      requires p in Places(file, t) && node == NodeAt(t, p) && w.Valid() && ch < CHILDMAX
      modifies this, w, w.bytes
      ensures buf == old(buf) && w.Valid()
      ensures w.total == old(w.total) + Render(ArcRecords(t, old(buf), ch))
      decreases t, 0, 0
    {
      var child := ReadChild(file, node, ch, p, t);
      if child.Some? {
        KidPlace(file, p, t, ch);
        buf := buf + [ch];
        DumpNode(file, child.value, w, ChildStart(t, p, ch), t.kids[ch]);
        buf := buf[..|buf| - 1];
      }
    }
  }

  /** The bytes of "alias ". */
  const ALIAS: Str := [97, 108, 105, 97, 115, 32]

  /** index_mm_dump: what reaches the descriptor */
  method IndexDump(file: Str, aliasPrefix: bool, ghost t: IndexTrie) returns (written: Str)
    requires Fits(t) && file == FileImage(t)
    ensures written == Render(Records(t, if aliasPrefix then ALIAS else []))
  {
    var root := OpenRoot(file, t);
    var prefix: Str := if aliasPrefix then ALIAS else [];
    if root.None? {
      NoRecords(prefix);
      return [];
    }
    written := DumpTree(file, root.value, prefix, t, Render(Records(t, prefix)));
  }

  /** The listing of the whole trie, flushed; `all` is what it should be. */
  method DumpTree(file: Str, root: MmNode, prefix: Str, ghost t: IndexTrie, ghost all: Str) returns (written: Str)
    requires HEADER in Places(file, t) && root == NodeAt(t, HEADER) && all == Render(Records(t, prefix))
    ensures written == all
  {
    var path := new PathBuffer();
    var w := new WriteBuffer();
    path.buf := prefix;
    path.DumpNode(file, root, w, HEADER, t);
    written := w.Close();
  }

  function RenderFirst(rs: seq<Entry>, i: nat): Str
    requires i <= |rs|
  {
    Render(rs[..i])
  }

  lemma RenderNext(before: Str, rs: seq<Entry>, i: nat)
    requires i < |rs|
    ensures before + RenderFirst(rs, i + 1) == before + RenderFirst(rs, i) + Line(rs[i])
  {
    assert rs[..i + 1][..i] == rs[..i];
  }

  function RenderKids(t: IndexTrie, at: Str, c: int): Str
    requires 0 <= c <= CHILDMAX
  {
    Render(KidRecords(t, at, c))
  }

  /** The children on arcs below `c` have been listed since `before`. */
  ghost function KidsListed(before: Str, t: IndexTrie, at: Str, c: int): Str
    requires 0 <= c <= CHILDMAX
  {
    before + RenderKids(t, at, c)
  }

  lemma KidsStart(before: Str, t: IndexTrie, at: Str, c: int)
    requires 0 <= c <= First(t)
    ensures before == KidsListed(before, t, at, c)
  {
    NoRecordsBefore(t, at, c);
  }

  lemma KidsEnd(total: Str, before: Str, t: IndexTrie, at: Str, c: int)
    requires Last(t) < c <= CHILDMAX && total == KidsListed(before, t, at, c)
    ensures total == before + RenderKids(t, at, CHILDMAX)
  {
    NoRecordsAfter(t, at, c);
  }

  lemma KidsNext(before: Str, t: IndexTrie, at: Str, c: Byte)
    requires c < CHILDMAX
    ensures before + RenderKids(t, at, c + 1) == before + RenderKids(t, at, c) + Render(ArcRecords(t, at, c))
  {
    Joined(before, KidRecords(t, at, c), ArcRecords(t, at, c));
  }

  lemma Joined(before: Str, a: seq<Entry>, b: seq<Entry>)
    ensures before + Render(a + b) == before + Render(a) + Render(b)
  {
    FlatMapAppend(Line, a, b);
  }

  lemma NoRecords(path: Str)
    ensures Records(EMPTY, path) == []
  {
    NoRecordsAfter(EMPTY, path + EMPTY.prefix, 1);
    NoRecordsBefore(EMPTY, path + EMPTY.prefix, 1);
  }

  lemma {:induction false} NoRecordsBefore(t: IndexTrie, at: Str, c: int)
    requires 0 <= c <= First(t)
    ensures KidRecords(t, at, c) == []
    decreases c
  {
    if c > 0 {
      NoRecordsBefore(t, at, c - 1);
    }
  }

  lemma {:induction false} NoRecordsAfter(t: IndexTrie, at: Str, c: int)
    requires Last(t) < c <= CHILDMAX
    ensures KidRecords(t, at, CHILDMAX) == KidRecords(t, at, c)
    decreases CHILDMAX - c
  {
    if c < CHILDMAX {
      NoRecordsAfter(t, at, c + 1);
    }
  }
}
