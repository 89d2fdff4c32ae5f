/**
 The on-disk format of the module index: sizes, byte images and offsets of trie nodes,
 and the facts a reader needs to find its way through the image of a whole trie.
 */
module Layout {
  import opened Text
  import opened PatriciaTrie

  const MAGIC := 0xB007F457
  const VERSION := 0x0002_0001
  const HEADER := 12

  const FLAG_PREFIX := 0x8000_0000
  const FLAG_VALUES := 0x4000_0000
  const FLAG_CHILDS := 0x2000_0000
  const OFFSET_LIMIT := 0x1000_0000

  type Word = w: int | 0 <= w < 0x1_0000_0000

  // ----- words

  /** The low 32 bits of `w`, most significant byte first. */
  function BigEndian(w: nat): (b: Str)
    ensures |b| == 4
  {
    [w / 0x100_0000 % 0x100, w / 0x1_0000 % 0x100, w / 0x100 % 0x100, w % 0x100]
  }

  function WordAt(file: Str, p: int): Word
    requires 0 <= p && p + 4 <= |file|
  {
    var a: int, b: int, c: int, d: int := file[p], file[p + 1], file[p + 2], file[p + 3];
    0x100_0000 * a + 0x1_0000 * b + 0x100 * c + d
  }

  /** A word reads back as its low 32 bits. */
  lemma WordRoundTrip(file: Str, p: int, w: nat)
    requires 0 <= p && p + 4 <= |file| && file[p..p + 4] == BigEndian(w)
    ensures WordAt(file, p) == w % 0x1_0000_0000
  {
    FourBytes(file, p, BigEndian(w));
    Recomposed(w);
  }

  lemma FourBytes(file: Str, p: int, b: Str)
    requires 0 <= p && p + 4 <= |file| && |b| == 4 && file[p..p + 4] == b
    ensures file[p] == b[0] && file[p + 1] == b[1] && file[p + 2] == b[2] && file[p + 3] == b[3]
  {
    assert file[p..p + 4][0] == file[p] && file[p..p + 4][1] == file[p + 1];
    assert file[p..p + 4][2] == file[p + 2] && file[p..p + 4][3] == file[p + 3];
  }

  lemma Recomposed(w: nat)
    ensures 0x100_0000 * (w / 0x100_0000 % 0x100) + 0x1_0000 * (w / 0x1_0000 % 0x100) + 0x100 * (w / 0x100 % 0x100)
            + w % 0x100 == w % 0x1_0000_0000
  {
    var a := w / 0x100;
    var b := a / 0x100;
    var c := b / 0x100;
    Quotients(w, a, b, c);
    LowBits(w, c / 0x100, 0x100_0000 * (c % 0x100) + 0x1_0000 * (b % 0x100) + 0x100 * (a % 0x100) + w % 0x100);
  }

  lemma Quotients(w: nat, a: nat, b: nat, c: nat)
    requires a == w / 0x100 && b == a / 0x100 && c == b / 0x100
    ensures w / 0x1_0000 == b && w / 0x100_0000 == c
  {
  }

  lemma LowBits(w: nat, high: nat, low: nat)
    requires w == 0x1_0000_0000 * high + low && low < 0x1_0000_0000
    ensures w % 0x1_0000_0000 == low
  {
  }

  /** `w & flag != 0` for a single-bit flag */
  predicate HasFlag(w: int, flag: int)
    requires flag > 0
  {
    w / flag % 2 == 1
  }

  /** `w | flag` for a single-bit flag */
  function SetFlag(w: int, flag: int, on: bool): int
    requires flag > 0
  {
    if on && !HasFlag(w, flag) then w + flag else w
  }

  /** `offset | mask` in 32 bits, for the mask that index_get_mask builds from three conditions */
  function TagWord(offset: nat, childs: bool, prefix: bool, values: bool): nat {
    var a := SetFlag(offset % 0x1_0000_0000, FLAG_CHILDS, childs);
    var b := SetFlag(a, FLAG_PREFIX, prefix);
    SetFlag(b, FLAG_VALUES, values)
  }

  /** `offset | index_get_mask(t)` */
  function Tagged(offset: nat, t: Trie): nat {
    TagWord(offset, t.kids != map[], t.prefix != [], t.values != [])
  }

  /** An offset of 28 bits and the three flags do not disturb each other. */
  lemma TaggedParts(offset: nat, t: Trie)
    requires offset < OFFSET_LIMIT
    ensures offset <= Tagged(offset, t) < 0x1_0000_0000
    ensures Tagged(offset, t) % OFFSET_LIMIT == offset
    ensures HasFlag(Tagged(offset, t), FLAG_PREFIX) == (t.prefix != [])
    ensures HasFlag(Tagged(offset, t), FLAG_VALUES) == (t.values != [])
    ensures HasFlag(Tagged(offset, t), FLAG_CHILDS) == (t.kids != map[])
  {
    TagWordParts(offset, t.kids != map[], t.prefix != [], t.values != []);
  }

  lemma TagWordParts(offset: nat, childs: bool, prefix: bool, values: bool)
    requires offset < OFFSET_LIMIT
    ensures var w := TagWord(offset, childs, prefix, values);
            && offset <= w < 0x1_0000_0000 && w % OFFSET_LIMIT == offset
            && HasFlag(w, FLAG_PREFIX) == prefix && HasFlag(w, FLAG_VALUES) == values
            && HasFlag(w, FLAG_CHILDS) == childs
  {
    var a := offset + Bit(FLAG_CHILDS, childs);
    ChildsBit(offset, childs);
    PrefixBit(a, prefix);
    ValuesBit(a, prefix, values);
    SumParts(offset, childs, prefix, values, a + Bit(FLAG_PREFIX, prefix) + Bit(FLAG_VALUES, values));
  }

  lemma ChildsBit(w: nat, on: bool)
    requires w < OFFSET_LIMIT
    ensures SetFlag(w % 0x1_0000_0000, FLAG_CHILDS, on) == w + Bit(FLAG_CHILDS, on)
  {
  }

  lemma PrefixBit(w: nat, on: bool)
    requires w < FLAG_VALUES
    ensures SetFlag(w, FLAG_PREFIX, on) == w + Bit(FLAG_PREFIX, on)
  {
  }

  lemma ValuesBit(w: nat, prefix: bool, on: bool)
    requires w < FLAG_VALUES
    ensures var b := w + Bit(FLAG_PREFIX, prefix); SetFlag(b, FLAG_VALUES, on) == b + Bit(FLAG_VALUES, on)
  {
  }

  function Bit(flag: nat, on: bool): nat {
    if on then flag else 0
  }

  lemma SumParts(offset: nat, childs: bool, prefix: bool, values: bool, w: nat)
    requires offset < OFFSET_LIMIT
    requires w == offset + Bit(FLAG_CHILDS, childs) + Bit(FLAG_PREFIX, prefix) + Bit(FLAG_VALUES, values)
    ensures offset <= w < 0x1_0000_0000 && w % OFFSET_LIMIT == offset
    ensures HasFlag(w, FLAG_PREFIX) == prefix && HasFlag(w, FLAG_VALUES) == values && HasFlag(w, FLAG_CHILDS) == childs
  {
  }

  /** Any offset with its flags is one word. */
  lemma TaggedWord(offset: nat, t: Trie)
    ensures Tagged(offset, t) < 0x1_0000_0000
  {
  }

  /** The offset can be read back if and only if it has 28 bits. */
  lemma OffsetReadBack(offset: nat, t: Trie)
    ensures Tagged(offset, t) % OFFSET_LIMIT == offset <==> offset < OFFSET_LIMIT
  {
    if offset < OFFSET_LIMIT {
      TaggedParts(offset, t);
    }
  }

  /** An offset that is a multiple of 2^28 reads as 0. */
  lemma {:induction false} TaggedRoot(offset: nat, t: Trie)
    requires offset % OFFSET_LIMIT == 0
    ensures Tagged(offset, t) % OFFSET_LIMIT == 0
  {
  }

  // ----- child range

  /** Smallest arc character at or after `c`, CHILDMAX if there is none. */
  function FirstFrom<T>(kids: map<int, T>, c: int): (r: int)
    requires 0 <= c <= CHILDMAX
    ensures c <= r <= CHILDMAX && (r < CHILDMAX ==> r in kids)
    ensures forall d :: c <= d < r ==> d !in kids
    decreases |kids|, CHILDMAX - c
  {
    if c == CHILDMAX || c in kids then c else FirstFrom(kids, c + 1)
  }

  /** Largest arc character at or before `c`, 0 if there is none. */
  function LastUpto<T>(kids: map<int, T>, c: int): (r: int)
    requires 0 <= c < CHILDMAX
    ensures 0 <= r <= c && (r > 0 ==> r in kids)
    ensures forall d :: r < d <= c ==> d !in kids
    decreases |kids|, c
  {
    if c == 0 || c in kids then c else LastUpto(kids, c - 1)
  }

  function First(t: Trie): int { FirstFrom(t.kids, 0) }

  function Last(t: Trie): int { LastUpto(t.kids, CHILDMAX - 1) }

  /** `first` and `last` bound the arcs tightly; an empty range is CHILDMAX, 0. */
  predicate IsRange<T>(kids: map<int, T>, first: int, last: int) {
    if kids == map[] then first == CHILDMAX && last == 0
    else
      && first in kids && last in kids
      && forall c :: c in kids ==> first <= c <= last
  }

  lemma SomeArc<T>(kids: map<int, T>) returns (c: int)
    requires kids != map[]
    ensures c in kids
  {
    if forall k :: k !in kids {
      assert false;
    }
    c :| c in kids;
  }

  lemma RangeOf(t: Trie, first: int, last: int)
    requires forall c :: c in t.kids ==> 0 < c < CHILDMAX
    ensures IsRange(t.kids, First(t), Last(t))
    ensures IsRange(t.kids, first, last) ==> first == First(t) && last == Last(t)
  {
    if t.kids != map[] {
      var c := SomeArc(t.kids);
      assert First(t) <= c <= Last(t);
    } else {
      assert First(t) == CHILDMAX && Last(t) == 0;
    }
  }

  /** The range depends on the arcs only. */
  lemma SameRange<A, B>(a: map<int, A>, b: map<int, B>)
    requires a.Keys == b.Keys
    ensures FirstFrom(a, 0) == FirstFrom(b, 0) && LastUpto(a, CHILDMAX - 1) == LastUpto(b, CHILDMAX - 1)
  {
    assert forall c :: c in a <==> c in b;
  }

  // ----- sizes

  function ValueSize(v: Value): nat { 4 + |v.text| + 1 }

  function ValuesSize(vs: seq<Value>): nat {
    if vs == [] then 0 else ValuesSize(vs[..|vs| - 1]) + ValueSize(vs[|vs| - 1])
  }

  /** Bytes of the node itself. */
  function Size(t: IndexTrie): nat
  {
    RangeOf(t, 0, 0);
    (if t.prefix != [] then |t.prefix| + 1 else 0)
    + (if t.kids != map[] then 2 + 4 * (Last(t) - First(t) + 1) else 0)
    + (if t.values != [] then 4 + ValuesSize(t.values) else 0)
  }

  /** Bytes of the node and everything below it. */
  function Total(t: IndexTrie): nat
    decreases t, CHILDMAX + 1
  {
    Size(t) + KidsTotal(t, CHILDMAX)
  }

  /** Bytes of the subtrees on arcs below `c`. */
  function KidsTotal(t: IndexTrie, c: int): nat
    requires 0 <= c <= CHILDMAX
    decreases t, c
  {
    if c == 0 then 0
    else KidsTotal(t, c - 1) + if c - 1 in t.kids then Total(t.kids[c - 1]) else 0
  }

  // ----- images

  function PrefixImage(t: Trie): Str {
    if t.prefix != [] then t.prefix + [0] else []
  }

  function ValueImage(v: Value): Str
    requires v.priority >= 0
  {
    BigEndian(v.priority) + v.text + [0]
  }

  function ValuesImage(vs: seq<Value>): Str
    requires forall i :: 0 <= i < |vs| ==> vs[i].priority >= 0
  {
    if vs == [] then [] else ValuesImage(vs[..|vs| - 1]) + ValueImage(vs[|vs| - 1])
  }

  function ValueList(vs: seq<Value>): Str
    requires forall i :: 0 <= i < |vs| ==> vs[i].priority >= 0
  {
    if vs == [] then [] else BigEndian(|vs|) + ValuesImage(vs)
  }

  /** Where the subtree on arc `c` starts, for a node at `offset`. */
  function ChildStart(t: IndexTrie, offset: nat, c: int): nat
    requires 0 <= c <= CHILDMAX
  {
    offset + Size(t) + KidsTotal(t, c)
  }

  /** The word stored for arc `c`: 0, or the tagged offset of the child. */
  function ChildWord(t: IndexTrie, offset: nat, c: int): nat
    requires 0 <= c <= CHILDMAX
  {
    if c in t.kids then Tagged(ChildStart(t, offset, c), t.kids[c]) else 0
  }

  /** The words for the arcs from First(t) up to but not including `c`. */
  function ChildWords(t: IndexTrie, offset: nat, c: int): Str
    requires First(t) <= c <= CHILDMAX
    decreases c
  {
    if c == First(t) then [] else ChildWords(t, offset, c - 1) + BigEndian(ChildWord(t, offset, c - 1))
  }

  function ChildTable(t: IndexTrie, offset: nat): Str
  {
    RangeOf(t, 0, 0);
    if t.kids == map[] then [] else RangeBytes(First(t), Last(t)) + ChildWords(t, offset, Last(t) + 1)
  }

  function RangeBytes(first: Byte, last: Byte): (b: Str)
    ensures |b| == 2
  {
    [first, last]
  }

  function Image(t: IndexTrie, offset: nat): Str
    decreases t, CHILDMAX + 1
  {
    PrefixImage(t) + ChildTable(t, offset) + ValueList(t.values) + KidsImage(t, offset, CHILDMAX)
  }

  /** The images of the subtrees on arcs below `c`. */
  function KidsImage(t: IndexTrie, offset: nat, c: int): Str
    requires 0 <= c <= CHILDMAX
    decreases t, c
  {
    if c == 0 then []
    else
      KidsImage(t, offset, c - 1)
      + if c - 1 in t.kids then Image(t.kids[c - 1], ChildStart(t, offset, c - 1)) else []
  }

  /** The index file: magic, version, tagged offset of the root, then the trie. */
  function FileImage(t: IndexTrie): Str
  {
    BigEndian(MAGIC) + BigEndian(VERSION) + BigEndian(Tagged(HEADER, t)) + Image(t, HEADER)
  }

  // ----- sizes of images

  lemma {:induction false} ValuesImageSize(vs: seq<Value>)
    requires forall i :: 0 <= i < |vs| ==> vs[i].priority >= 0
    ensures |ValuesImage(vs)| == ValuesSize(vs)
  {
    if vs != [] {
      ValuesImageSize(vs[..|vs| - 1]);
    }
  }

  lemma {:induction false} ChildWordsSize(t: IndexTrie, offset: nat, c: int)
    requires First(t) <= c <= CHILDMAX
    ensures |ChildWords(t, offset, c)| == 4 * (c - First(t))
    decreases c
  {
    if c != First(t) {
      ChildWordsSize(t, offset, c - 1);
    }
  }

  lemma ChildTableSize(t: IndexTrie, offset: nat)
    ensures |ChildTable(t, offset)| == if t.kids != map[] then 2 + 4 * (Last(t) - First(t) + 1) else 0
  {
    if t.kids != map[] {
      RangeOf(t, 0, 0);
      ChildWordsSize(t, offset, Last(t) + 1);
    }
  }

  /** The node's own fields take Size(t) bytes. */
  lemma OwnImageSize(t: IndexTrie, offset: nat)
    ensures |PrefixImage(t)| + |ChildTable(t, offset)| + |ValueList(t.values)| == Size(t)
  {
    ChildTableSize(t, offset);
    ValuesImageSize(t.values);
  }

  /** index_calculate_size is the number of bytes index_write__node emits, for every subtree. */
  lemma {:induction false} ImageSize(t: IndexTrie, offset: nat)
    ensures |Image(t, offset)| == Total(t)
    decreases t, CHILDMAX + 1
  {
    OwnImageSize(t, offset);
    KidsImageSize(t, offset, CHILDMAX);
  }

  lemma {:induction false} KidsImageSize(t: IndexTrie, offset: nat, c: int)
    requires 0 <= c <= CHILDMAX
    ensures |KidsImage(t, offset, c)| == KidsTotal(t, c)
    decreases t, c
  {
    if c > 0 {
      KidsImageSize(t, offset, c - 1);
      if c - 1 in t.kids {
        ImageSize(t.kids[c - 1], ChildStart(t, offset, c - 1));
      }
    }
  }

  // ----- finding the parts of an image in a file

  /** `part` stands in `file` at position `p`. */
  ghost predicate Holds(file: Str, p: nat, part: Str) {
    p + |part| <= |file| && p in Occurrences(file, part)
  }

  /** The places where `part` stands. */
  ghost function Occurrences(file: Str, part: Str): set<nat> {
    set p: nat | p <= |file| && forall k :: Asked(k) ==> OccursAt(file, p, part)
  }

  ghost predicate OccursAt(file: Str, p: nat, part: Str) {
    p + |part| <= |file| && file[p..p + |part|] == part
  }

  lemma IsHeld(file: Str, p: nat, part: Str)
    ensures Holds(file, p, part) <==> p + |part| <= |file| && file[p..p + |part|] == part
  {
    if Holds(file, p, part) {
      assert Asked(0);
    }
  }

  lemma {:induction false} HoldsParts(file: Str, p: nat, a: Str, b: Str)
    requires Holds(file, p, a + b)
    ensures Holds(file, p, a) && Holds(file, p + |a|, b)
  {
    var ab := a + b;
    IsHeld(file, p, ab);
    assert file[p..p + |a|] == file[p..p + |ab|][..|a|] == ab[..|a|] == a;
    assert file[p + |a|..p + |ab|] == file[p..p + |ab|][|a|..] == ab[|a|..] == b;
  }

  lemma HoldsFour(file: Str, p: nat, a: Str, b: Str, c: Str, d: Str)
    requires Holds(file, p, a + b + c + d)
    ensures Holds(file, p, a) && Holds(file, p + |a|, b)
    ensures Holds(file, p + |a| + |b|, c) && Holds(file, p + |a| + |b| + |c|, d)
  {
    HoldsParts(file, p, a + b + c, d);
    HoldsParts(file, p, a + b, c);
    HoldsParts(file, p, a, b);
  }

  lemma HoldsLowWord(file: Str, p: nat, w: nat)
    requires Holds(file, p, BigEndian(w))
    ensures p + 4 <= |file| && WordAt(file, p) == w % 0x1_0000_0000
  {
    IsHeld(file, p, BigEndian(w));
    WordRoundTrip(file, p, w);
  }

  lemma HoldsWord(file: Str, p: nat, w: nat)
    requires Holds(file, p, BigEndian(w)) && w < 0x1_0000_0000
    ensures p + 4 <= |file| && WordAt(file, p) == w
  {
    HoldsLowWord(file, p, w);
  }

  /** The positions of the file where the image of `t` stands. */
  ghost function Images(file: Str, t: IndexTrie): set<nat> {
    set p: nat | p <= |file| && forall k :: Asked(k) ==> Holds(file, p, Image(t, p))
  }

  lemma IsImage(file: Str, p: nat, t: IndexTrie)
    ensures p in Images(file, t) <==> Holds(file, p, Image(t, p))
  {
    assert Asked(0);
  }

  /** Where the number of values stands in the file. */
  function CountPos(t: IndexTrie, p: nat): nat {
    p + |PrefixImage(t)| + |ChildTable(t, p)|
  }

  /** Where the parts of a node are. */
  lemma {:induction false} ImageParts(file: Str, p: nat, t: IndexTrie)
    requires p in Images(file, t)
    ensures p + Total(t) <= |file|
    ensures Holds(file, p, PrefixImage(t))
    ensures Holds(file, p + |PrefixImage(t)|, ChildTable(t, p))
    ensures Holds(file, CountPos(t, p), ValueList(t.values))
  {
    IsImage(file, p, t);
    ImageSize(t, p);
    HoldsFour(file, p, PrefixImage(t), ChildTable(t, p), ValueList(t.values), KidsImage(t, p, CHILDMAX));
  }

  lemma ImageKids(file: Str, p: nat, t: IndexTrie)
    requires p in Images(file, t)
    ensures Holds(file, p + Size(t), KidsImage(t, p, CHILDMAX))
  {
    IsImage(file, p, t);
    var own := PrefixImage(t) + ChildTable(t, p) + ValueList(t.values);
    HoldsParts(file, p, own, KidsImage(t, p, CHILDMAX));
    OwnImageSize(t, p);
  }

  /** A child's subtree lies inside its parent's. */
  lemma ImageChild(file: Str, p: nat, t: IndexTrie, c: int)
    requires p in Images(file, t) && c in t.kids
    ensures ChildStart(t, p, c) in Images(file, t.kids[c])
  {
    ImageKids(file, p, t);
    KidImage(file, p + Size(t), t, p, c);
  }

  /** Every node of a subtree at `p` starts within reach of 28-bit offsets, and no count of values exceeds 32 bits. */
  predicate Addressable(t: IndexTrie, p: nat) {
    && p < OFFSET_LIMIT && |t.values| < 0x1_0000_0000
    && forall c :: c in t.kids ==> Addressable(t.kids[c], ChildStart(t, p, c))
  }

  /** A whole subtree stands in the file at `p`, within reach of the offsets. */
  ghost predicate Stored(file: Str, p: nat, t: IndexTrie) {
    && 0 < p
    && Addressable(t, p)
    && p in Images(file, t)
  }

  /** A child's subtree lies inside its parent's, at the offset the parent's table gives. */
  lemma StoredChild(file: Str, p: nat, t: IndexTrie, c: int)
    requires Stored(file, p, t) && c in t.kids
    ensures Stored(file, ChildStart(t, p, c), t.kids[c])
    ensures ChildStart(t, p, c) + Total(t.kids[c]) <= |file|
  {
    ImageChild(file, p, t, c);
    ImageParts(file, ChildStart(t, p, c), t.kids[c]);
  }

  lemma KidImage(file: Str, q: nat, t: IndexTrie, p: nat, c: int)
    requires c in t.kids && q == p + Size(t) && Holds(file, q, KidsImage(t, p, CHILDMAX))
    ensures ChildStart(t, p, c) in Images(file, t.kids[c])
  {
    var at := ChildStart(t, p, c);
    HoldsKid(file, q, t, p, CHILDMAX, c, at);
    IsImage(file, at, t.kids[c]);
  }

  lemma {:induction false} HoldsKid(file: Str, q: nat, t: IndexTrie, offset: nat, c: int, k: int, at: nat)
    requires 0 <= c <= CHILDMAX && k in t.kids && k < c
    requires q == offset + Size(t) && at == ChildStart(t, offset, k) && Holds(file, q, KidsImage(t, offset, c))
    ensures Holds(file, at, Image(t.kids[k], at))
    decreases c
  {
    var front := KidsImage(t, offset, c - 1);
    if k == c - 1 {
      KidsImageSize(t, offset, k);
      HoldsPair(file, q, front + Image(t.kids[k], at), front, Image(t.kids[k], at), at);
    } else {
      HoldsParts(file, q, front, KidsImage(t, offset, c)[|front|..]);
      HoldsKid(file, q, t, offset, c - 1, k, at);
    }
  }

  lemma {:induction false} HoldsPair(file: Str, q: nat, ab: Str, a: Str, b: Str, at: nat)
    requires ab == a + b && Holds(file, q, ab) && at == q + |a|
    ensures Holds(file, q, a) && Holds(file, at, b)
  {
    HoldsParts(file, q, a, b);
  }

  lemma {:induction false} HoldsChildWord(file: Str, q: nat, t: IndexTrie, offset: nat, c: int, k: int, at: nat)
    requires First(t) <= k < c <= CHILDMAX && at == q + 4 * (k - First(t))
    requires Holds(file, q, ChildWords(t, offset, c))
    ensures Holds(file, at, BigEndian(ChildWord(t, offset, k)))
    decreases c
  {
    var front, last := ChildWords(t, offset, c - 1), BigEndian(ChildWord(t, offset, c - 1));
    if k == c - 1 {
      ChildWordsSize(t, offset, c - 1);
      HoldsPair(file, q, front + last, front, last, at);
    } else {
      HoldsParts(file, q, front, last);
      HoldsChildWord(file, q, t, offset, c - 1, k, at);
    }
  }

  /** ... and the node itself can be read: its start has 28 bits, its number of values 32. */
  ghost predicate Near(file: Str, p: nat, t: IndexTrie) {
    0 < p < OFFSET_LIMIT && |t.values| < 0x1_0000_0000 && p in Images(file, t)
  }

  ghost function Spots(file: Str, t: IndexTrie): set<nat> {
    set p: nat | p <= |file| && forall k :: Asked(k) ==> Near(file, p, t)
  }

  lemma {:induction false} IsSpot(file: Str, p: nat, t: IndexTrie)
    ensures p in Spots(file, t) <==> Near(file, p, t)
  {
    if p in Spots(file, t) {
      assert Asked(0);
    } else if Near(file, p, t) {
      ImageParts(file, p, t);
    }
  }

  lemma {:induction false} SpotIsImage(file: Str, p: nat, t: IndexTrie)
    requires p in Spots(file, t)
    ensures p in Images(file, t)
  {
    assert Asked(0);
  }

  lemma SpotBounds(file: Str, p: nat, t: IndexTrie)
    requires p in Spots(file, t)
    ensures 0 < p < OFFSET_LIMIT && p % OFFSET_LIMIT == p && |t.values| < 0x1_0000_0000
  {
    assert Asked(0);
  }

  /** ... and so can everything below it. */
  ghost function Places(file: Str, t: IndexTrie): set<nat> {
    set p: nat | p in Spots(file, t) && forall k :: Asked(k) ==> Addressable(t, p)
  }

  lemma IsPlace(file: Str, p: nat, t: IndexTrie)
    ensures p in Places(file, t) <==> Stored(file, p, t)
  {
    IsSpot(file, p, t);
    if p in Places(file, t) {
      assert Asked(0);
    }
  }

  lemma PlaceKid(file: Str, p: nat, t: IndexTrie, c: int)
    requires p in Places(file, t) && c in t.kids
    ensures 0 < c < CHILDMAX && Occupied(t.kids[c])
    ensures ChildStart(t, p, c) in Places(file, t.kids[c])
  {
    IsPlace(file, p, t);
    StoredChild(file, p, t, c);
    IsPlace(file, ChildStart(t, p, c), t.kids[c]);
  }

  /** Where the parts of the node at `p` are. */
  lemma {:induction false} SpotParts(file: Str, p: nat, t: IndexTrie)
    requires p in Spots(file, t)
    ensures 0 < p < OFFSET_LIMIT && p + Total(t) <= |file| && |t.values| < 0x1_0000_0000
    ensures Holds(file, p, PrefixImage(t))
    ensures Holds(file, p + |PrefixImage(t)|, ChildTable(t, p))
    ensures Holds(file, CountPos(t, p), ValueList(t.values))
  {
    IsSpot(file, p, t);
    ImageParts(file, p, t);
  }

  /** Only the empty trie takes no bytes. */
  lemma {:induction false} NoBytes(t: IndexTrie)
    ensures Total(t) == 0 <==> t == Node([], [], map[])
    ensures Occupied(t) ==> Total(t) > 0
  {
    OwnBytes(t);
    if t == Node([], [], map[]) {
      NoKids(t, CHILDMAX);
    }
  }

  lemma OwnBytes(t: IndexTrie)
    ensures Size(t) == 0 <==> t.prefix == [] && t.values == [] && t.kids == map[]
  {
    RangeOf(t, 0, 0);
  }

  lemma {:induction false} NoKids(t: IndexTrie, c: int)
    requires t.kids == map[] && 0 <= c <= CHILDMAX
    ensures KidsTotal(t, c) == 0
    decreases c
  {
    if c > 0 {
      NoKids(t, c - 1);
    }
  }

  /** Where the word for arc `c` stands in the file. */
  function WordPos(t: IndexTrie, p: nat, c: int): nat
    requires First(t) <= c
  {
    p + |PrefixImage(t)| + 2 + 4 * (c - First(t))
  }

  /** The words of the child table, one by one. */
  lemma {:induction false} TableWord(file: Str, p: nat, t: IndexTrie, c: int)
    requires p in Images(file, t) && First(t) <= c <= Last(t) && t.kids != map[]
    ensures WordPos(t, p, c) + 4 <= |file| && WordAt(file, WordPos(t, p, c)) == ChildWord(t, p, c)
  {
    HoldsTableWord(file, p, t, c);
    if c in t.kids {
      TaggedWord(ChildStart(t, p, c), t.kids[c]);
    }
    HoldsWord(file, WordPos(t, p, c), ChildWord(t, p, c));
  }

  lemma {:induction false} HoldsTableWord(file: Str, p: nat, t: IndexTrie, c: int)
    requires p in Images(file, t) && First(t) <= c <= Last(t) && t.kids != map[]
    ensures Holds(file, WordPos(t, p, c), BigEndian(ChildWord(t, p, c)))
  {
    HoldsTable(file, p, t, p + |PrefixImage(t)|);
    HoldsChildWord(file, WordPos(t, p, First(t)), t, p, Last(t) + 1, c, WordPos(t, p, c));
  }

  lemma {:induction false} HoldsTable(file: Str, p: nat, t: IndexTrie, q: nat)
    requires p in Images(file, t) && t.kids != map[] && q == p + |PrefixImage(t)|
    ensures First(t) <= Last(t) < CHILDMAX
    ensures Holds(file, q, RangeBytes(First(t), Last(t)))
    ensures Holds(file, WordPos(t, p, First(t)), ChildWords(t, p, Last(t) + 1))
  {
    ImageParts(file, p, t);
    RangeOf(t, 0, 0);
    var table := ChildTable(t, p);
    HoldsPair(file, q, table, RangeBytes(First(t), Last(t)), ChildWords(t, p, Last(t) + 1), WordPos(t, p, First(t)));
  }

  /** The number of values, in 32 bits, and the values behind it. */
  lemma {:induction false} CountWord(file: Str, p: nat, t: IndexTrie)
    requires p in Images(file, t) && t.values != []
    ensures CountPos(t, p) + 4 <= |file| && WordAt(file, CountPos(t, p)) == |t.values| % 0x1_0000_0000
    ensures Holds(file, CountPos(t, p) + 4, ValuesImage(t.values))
  {
    HoldsCount(file, p, t);
    HoldsLowWord(file, CountPos(t, p), |t.values|);
  }

  lemma {:induction false} HoldsCount(file: Str, p: nat, t: IndexTrie)
    requires p in Images(file, t) && t.values != []
    ensures Holds(file, CountPos(t, p), BigEndian(|t.values|))
    ensures Holds(file, CountPos(t, p) + 4, ValuesImage(t.values))
  {
    ImageParts(file, p, t);
    var q, list := CountPos(t, p), ValueList(t.values);
    HoldsPair(file, q, list, BigEndian(|t.values|), ValuesImage(t.values), q + 4);
  }

  /** The values of a list, one by one. */
  lemma {:induction false} HoldsValue(file: Str, q: nat, vs: seq<Value>, i: nat)
    requires i < |vs| && forall k :: 0 <= k < |vs| ==> vs[k].priority >= 0
    requires Holds(file, q, ValuesImage(vs))
    ensures Holds(file, q + ValuesSize(vs[..i]), ValueImage(vs[i]))
    decreases |vs|
  {
    var front, last := vs[..|vs| - 1], vs[|vs| - 1];
    HoldsParts(file, q, ValuesImage(front), ValueImage(last));
    if i == |vs| - 1 {
      ValuesImageSize(front);
    } else {
      HoldsValue(file, q, front, i);
      assert front[..i] == vs[..i];
    }
  }

  // ----- which files can be read back

  /** Every node of the trie's file starts within reach of the 28-bit offsets. */
  predicate Fits(t: IndexTrie) {
    Addressable(t, HEADER)
  }

  /** What a reader relies on below `p`: offsets lead to where the children stand, counts are the numbers of values. */
  ghost predicate Linked(file: Str, p: nat, t: IndexTrie)
    decreases t
  {
    && (t.values != [] ==> CountPos(t, p) + 4 <= |file| && WordAt(file, CountPos(t, p)) == |t.values|)
    && forall c :: c in t.kids ==> LinkedChild(file, p, t, c) && Linked(file, ChildStart(t, p, c), t.kids[c])
  }

  ghost predicate LinkedChild(file: Str, p: nat, t: IndexTrie, c: int)
    requires c in t.kids
  {
    RangeOf(t, 0, 0);
    WordPos(t, p, c) + 4 <= |file| && WordAt(file, WordPos(t, p, c)) % OFFSET_LIMIT == ChildStart(t, p, c)
  }

  lemma ChildLinkedIff(file: Str, p: nat, t: IndexTrie, c: int)
    requires p in Images(file, t) && c in t.kids
    ensures LinkedChild(file, p, t, c) <==> ChildStart(t, p, c) < OFFSET_LIMIT
  {
    RangeOf(t, 0, 0);
    TableWord(file, p, t, c);
    OffsetReadBack(ChildStart(t, p, c), t.kids[c]);
  }

  /** The written links are right if and only if every node starts below 2^28 and every count is below 2^32. */
  lemma {:induction false} LinkedIff(file: Str, p: nat, t: IndexTrie)
    requires p in Images(file, t) && p < OFFSET_LIMIT
    ensures Linked(file, p, t) <==> Addressable(t, p)
    decreases t
  {
    if t.values != [] {
      CountWord(file, p, t);
    }
    forall c | c in t.kids
      ensures LinkedChild(file, p, t, c) && Linked(file, ChildStart(t, p, c), t.kids[c])
         <==> Addressable(t.kids[c], ChildStart(t, p, c))
    {
      ChildLinkedIff(file, p, t, c);
      if ChildStart(t, p, c) < OFFSET_LIMIT {
        ImageChild(file, p, t, c);
        LinkedIff(file, ChildStart(t, p, c), t.kids[c]);
      }
    }
  }

  lemma {:induction false} KidsTotalUpTo(t: IndexTrie, k: int, c: int)
    requires k in t.kids && k < c <= CHILDMAX
    ensures KidsTotal(t, k) + Total(t.kids[k]) <= KidsTotal(t, c)
    decreases c
  {
    if k < c - 1 {
      KidsTotalUpTo(t, k, c - 1);
    }
  }

  lemma {:induction false} CountFits(vs: seq<Value>)
    ensures |vs| <= ValuesSize(vs)
  {
    if vs != [] {
      CountFits(vs[..|vs| - 1]);
    }
  }

  /** Files below 2^28 bytes are within reach, in particular. */
  lemma {:induction false} SmallFits(t: IndexTrie, p: nat)
    requires p < OFFSET_LIMIT && p + Total(t) <= OFFSET_LIMIT
    ensures Addressable(t, p)
    decreases t
  {
    CountFits(t.values);
    forall c | c in t.kids ensures Addressable(t.kids[c], ChildStart(t, p, c)) {
      KidsTotalUpTo(t, c, CHILDMAX);
      NoBytes(t.kids[c]);
      SmallFits(t.kids[c], ChildStart(t, p, c));
    }
  }

  /** The header words of the file, and the whole trie behind them. */
  lemma {:induction false} FileParts(t: IndexTrie)
    ensures |FileImage(t)| == HEADER + Total(t)
    ensures HEADER in Images(FileImage(t), t)
    ensures WordAt(FileImage(t), 0) == MAGIC && WordAt(FileImage(t), 4) == VERSION
    ensures WordAt(FileImage(t), 8) == Tagged(HEADER, t)
  {
    ImageSize(t, HEADER);
    TaggedWord(HEADER, t);
    HeaderParts(MAGIC, VERSION, Tagged(HEADER, t), Image(t, HEADER));
    IsImage(FileImage(t), HEADER, t);
  }

  lemma HeaderParts(magic: Word, version: Word, root: Word, body: Str)
    ensures var file := BigEndian(magic) + BigEndian(version) + BigEndian(root) + body;
            && WordAt(file, 0) == magic && WordAt(file, 4) == version && WordAt(file, 8) == root
            && Holds(file, HEADER, body)
  {
    var a, b, c := BigEndian(magic), BigEndian(version), BigEndian(root);
    var file := a + b + c + body;
    assert Holds(file, 0, a + b + c + body);
    HoldsFour(file, 0, a, b, c, body);
    HoldsWord(file, 0, magic);
    HoldsWord(file, 4, version);
    HoldsWord(file, 8, root);
  }

  /** A reader of the file finds the trie behind the header. */
  lemma FileStored(t: IndexTrie)
    requires Fits(t)
    ensures |FileImage(t)| == HEADER + Total(t)
    ensures HEADER in Places(FileImage(t), t)
    ensures WordAt(FileImage(t), 0) == MAGIC && WordAt(FileImage(t), 4) == VERSION
    ensures WordAt(FileImage(t), 8) == Tagged(HEADER, t)
  {
    FileParts(t);
    IsPlace(FileImage(t), HEADER, t);
  }

  /** The file's links are right if and only if the trie fits. */
  lemma FileLinkedIff(t: IndexTrie)
    ensures Linked(FileImage(t), HEADER, t) <==> Fits(t)
  {
    FileParts(t);
    LinkedIff(FileImage(t), HEADER, t);
  }
}
