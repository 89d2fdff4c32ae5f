/**
 What patterns match: a pattern is written down piece by piece, a bracket expression in it element by element, and
 fnmatch takes exactly the strings that are put together from what the pieces stand for.
 */
module Patterns {
  import opened Text
  import opened Glob

  // ----- how bracket expressions are written

  /** A character: as it is, behind a backslash, or as a collating symbol. */
  datatype Letter = Plain(c: Byte) | Escaped(c: Byte) | Symbol(c: Byte)

  /** A single character, a range, an equivalence class or a character class. */
  datatype Element = One(l: Letter) | Span(lo: Letter, hi: Letter) | Equal(c: Byte) | Group(name: Str)

  function Spelled(l: Letter): (r: Str)
    ensures r != []
  {
    match l
    case Plain(c) => [c]
    case Escaped(c) => [BACKSLASH, c]
    case Symbol(c) => [OPEN, DOT, c, DOT, CLOSE]
  }

  function Written(e: Element): (r: Str)
    ensures r != []
  {
    match e
    case One(l) => Spelled(l)
    case Span(lo, hi) => Spelled(lo) + [DASH] + Spelled(hi)
    case Equal(c) => [OPEN, EQUALS, c, EQUALS, CLOSE]
    case Group(name) => [OPEN, COLON] + name + [COLON, CLOSE]
  }

  function AllWritten(es: seq<Element>): Str {
    if es == [] then [] else Written(es[0]) + AllWritten(es[1..])
  }

  /** A backslash does not stand for itself, a closing bracket only in first position. */
  predicate ProperLetter(l: Letter, first: bool) {
    l.Plain? ==> l.c != BACKSLASH && (l.c == CLOSE ==> first)
  }

  predicate ProperElement(e: Element, first: bool) {
    match e
    case One(l) => ProperLetter(l, first)
    case Span(lo, hi) => ProperLetter(lo, first) && ProperLetter(hi, false)
    case Equal(c) => true
    case Group(name) => COLON !in name
  }

  /** Behind an opening bracket that stands for itself there is nothing that makes it special. */
  predicate Apart(l: Letter, t: Str) {
    l == Plain(OPEN) && t != [] ==> t[0] != DOT && t[0] != EQUALS && t[0] != COLON
  }

  /** Behind a single character there is no dash that makes it a range. */
  predicate NoDash(t: Str) {
    |t| >= 2 && t[0] == DASH ==> t[1] == CLOSE
  }

  /** Whether an element is read as one of its own in front of `t`. */
  predicate Ends(e: Element, t: Str) {
    match e
    case One(l) => Apart(l, t) && NoDash(t)
    case Span(lo, hi) => Apart(hi, t)
    case _ => true
  }

  /** The elements can be told apart, up to the closing bracket. */
  predicate Proper(es: seq<Element>, first: bool) {
    es == [] || (
      && ProperElement(es[0], first)
      && Ends(es[0], AllWritten(es[1..]) + [CLOSE])
      && Proper(es[1..], false))
  }

  // ----- what they denote

  predicate Between(lo: Byte, c: Byte, hi: Byte) {
    lo <= c <= hi
  }

  function From(lo: Byte, hi: Byte): set<Byte> {
    set c: Byte | 0 <= c < 256 && Between(lo, c, hi)
  }

  /** The character classes of the POSIX locale, by the bytes of their names. */
  function Classes(name: Str): set<Byte> {
    if name == [97, 108, 112, 104, 97] then From(65, 90) + From(97, 122) // alpha
    else if name == [100, 105, 103, 105, 116] then From(48, 57) // digit
    else if name == [97, 108, 110, 117, 109] then From(48, 57) + From(65, 90) + From(97, 122) // alnum
    else if name == [117, 112, 112, 101, 114] then From(65, 90) // upper
    else if name == [108, 111, 119, 101, 114] then From(97, 122) // lower
    else if name == [115, 112, 97, 99, 101] then {9, 10, 11, 12, 13, 32} // space
    else if name == [98, 108, 97, 110, 107] then {9, 32} // blank
    else if name == [103, 114, 97, 112, 104] then From(33, 126) // graph
    else if name == [112, 114, 105, 110, 116] then From(32, 126) // print
    else if name == [112, 117, 110, 99, 116] then From(33, 47) + From(58, 64) + From(91, 96) + From(123, 126) // punct
    else if name == [99, 110, 116, 114, 108] then From(0, 31) + {127} // cntrl
    else if name == [120, 100, 105, 103, 105, 116] then From(48, 57) + From(65, 70) + From(97, 102) // xdigit
    else {}
  }

  function Denoted(e: Element): set<Byte> {
    match e
    case One(l) => {l.c}
    case Span(lo, hi) => From(lo.c, hi.c)
    case Equal(c) => {c}
    case Group(name) => Classes(name)
  }

  function AllDenoted(es: seq<Element>): set<Byte> {
    if es == [] then {} else Denoted(es[0]) + AllDenoted(es[1..])
  }

  // ----- reading the elements

  lemma LetterRead(l: Letter, first: bool, t: Str)
    requires ProperLetter(l, first) && Apart(l, t)
    ensures ParseChar(Spelled(l) + t) == (l.c, t)
  {
    var p := Spelled(l) + t;
    assert p[|Spelled(l)|..] == t;
    if l.Plain? {
      assert p[0] == l.c && (t != [] ==> p[1] == t[0]);
    }
  }

  /** The item that an element is read as. */
  function Read(e: Element): Item {
    match e
    case One(l) => Range(l.c, l.c)
    case Span(lo, hi) => Range(lo.c, hi.c)
    case Equal(c) => Range(c, c)
    case Group(name) => Class(name)
  }

  lemma OneRead(l: Letter, first: bool, t: Str)
    requires ProperLetter(l, first) && Apart(l, t) && NoDash(t)
    ensures ParseItem(Spelled(l) + t) == (Range(l.c, l.c), t)
  {
    LetterRead(l, first, t);
    var p := Spelled(l) + t;
    assert p[0] == Spelled(l)[0] && (|p| > 1 ==> p[1] == if l.Plain? then t[0] else Spelled(l)[1]);
  }

  lemma SpanRead(lo: Letter, hi: Letter, first: bool, t: Str)
    requires ProperLetter(lo, first) && ProperLetter(hi, false) && Apart(hi, t)
    ensures ParseItem(Spelled(lo) + [DASH] + Spelled(hi) + t) == (Range(lo.c, hi.c), t)
  {
    var r := [DASH] + (Spelled(hi) + t);
    var p := Spelled(lo) + [DASH] + Spelled(hi) + t;
    assert p == Spelled(lo) + r;
    assert p[0] == Spelled(lo)[0] && p[1] == if lo.Plain? then DASH else Spelled(lo)[1];
    LetterRead(lo, first, r);
    assert r[1..] == Spelled(hi) + t && r[1] == Spelled(hi)[0];
    LetterRead(hi, false, t);
  }

  lemma {:induction false} ClassEnd(p: Str, i: nat, e: nat)
    requires i <= e && e + 1 < |p| && p[e] == COLON && p[e + 1] == CLOSE
    requires forall k :: i <= k < e ==> p[k] != COLON
    ensures FindClassEnd(p, i) == Some(e)
    decreases e - i
  {
    if i < e {
      ClassEnd(p, i + 1, e);
    }
  }

  lemma GroupRead(name: Str, t: Str)
    requires COLON !in name
    ensures ParseItem([OPEN, COLON] + name + [COLON, CLOSE] + t) == (Class(name), t)
  {
    var p := [OPEN, COLON] + name + [COLON, CLOSE] + t;
    var e := 2 + |name|;
    assert p[e] == COLON && p[e + 1] == CLOSE;
    forall k | 2 <= k < e ensures p[k] != COLON {
      assert p[k] == name[k - 2];
    }
    ClassEnd(p, 2, e);
    assert p[2..e] == name && p[e + 2..] == t;
  }

  lemma EqualRead(c: Byte, t: Str)
    ensures ParseItem([OPEN, EQUALS, c, EQUALS, CLOSE] + t) == (Range(c, c), t)
  {
    var p := [OPEN, EQUALS, c, EQUALS, CLOSE] + t;
    assert p[5..] == t;
  }

  lemma ElementRead(e: Element, first: bool, t: Str)
    requires ProperElement(e, first) && Ends(e, t)
    ensures ParseItem(Written(e) + t) == (Read(e), t)
  {
    match e
    case One(l) => OneRead(l, first, t);
    case Span(lo, hi) => SpanRead(lo, hi, first, t);
    case Equal(c) => EqualRead(c, t);
    case Group(name) => GroupRead(name, t);
  }

  function AllRead(es: seq<Element>): seq<Item> {
    if es == [] then [] else [Read(es[0])] + AllRead(es[1..])
  }

  lemma {:induction false} ElementsRead(es: seq<Element>, first: bool, p: Str)
    requires Proper(es, first) && (first ==> es != [])
    ensures ParseItems(AllWritten(es) + [CLOSE] + p, first) == Some((AllRead(es), p))
    decreases |es|
  {
    var w := AllWritten(es) + [CLOSE] + p;
    if es == [] {
      assert w[0] == CLOSE && w[1..] == p;
    } else {
      var t := AllWritten(es[1..]) + [CLOSE] + p;
      assert w == Written(es[0]) + t;
      assert w[0] == Written(es[0])[0];
      EndsBefore(es[0], AllWritten(es[1..]), p);
      ElementRead(es[0], first, t);
      NotClosing(es[0], first);
      ElementsRead(es[1..], false, p);
    }
  }

  lemma NotClosing(e: Element, first: bool)
    requires ProperElement(e, first)
    ensures Written(e)[0] == CLOSE ==> first
  {
  }

  /** Nothing behind the closing bracket matters. */
  lemma EndsBefore(e: Element, w: Str, p: Str)
    requires Ends(e, w + [CLOSE])
    ensures Ends(e, w + [CLOSE] + p)
  {
    var t := w + [CLOSE];
    assert (t + p)[0] == t[0] && (w != [] ==> (t + p)[1] == t[1]);
  }

  // ----- their meaning

  lemma NamesDiffer()
    ensures Ascii("alpha") == [97, 108, 112, 104, 97] && Ascii("digit") == [100, 105, 103, 105, 116]
    ensures Ascii("alnum") == [97, 108, 110, 117, 109] && Ascii("upper") == [117, 112, 112, 101, 114]
    ensures Ascii("lower") == [108, 111, 119, 101, 114] && Ascii("space") == [115, 112, 97, 99, 101]
    ensures Ascii("blank") == [98, 108, 97, 110, 107] && Ascii("graph") == [103, 114, 97, 112, 104]
    ensures Ascii("print") == [112, 114, 105, 110, 116] && Ascii("punct") == [112, 117, 110, 99, 116]
    ensures Ascii("cntrl") == [99, 110, 116, 114, 108] && Ascii("xdigit") == [120, 100, 105, 103, 105, 116]
  {
  }

  lemma ClassMeaning(name: Str, c: Byte)
    ensures InClass(name, c) <==> c in Classes(name)
  {
    NamesDiffer();
  }

  lemma ItemMeaning(e: Element, c: Byte)
    ensures InItem(Read(e), c) <==> c in Denoted(e)
  {
    if e.Group? {
      ClassMeaning(e.name, c);
    }
  }

  lemma {:induction false} ItemsMeaning(es: seq<Element>, c: Byte)
    ensures InItems(AllRead(es), c) <==> c in AllDenoted(es)
    decreases |es|
  {
    if es != [] {
      ItemMeaning(es[0], c);
      ItemsMeaning(es[1..], c);
      var items, rest := AllRead(es), AllRead(es[1..]);
      assert items[0] == Read(es[0]) && items[1..] == rest;
      if InItems(rest, c) {
        var i :| 0 <= i < |rest| && InItem(rest[i], c);
        assert items[i + 1] == rest[i];
      }
      if InItems(items, c) {
        var i :| 0 <= i < |items| && InItem(items[i], c);
        assert i > 0 ==> rest[i - 1] == items[i];
      }
    }
  }

  /** An exclamation mark or a circumflex in front asks for the other bytes. */
  predicate IsMark(c: Byte) {
    c == 33 || c == 94
  }

  lemma {:induction false} BracketRead(mark: Str, es: seq<Element>, p: Str)
    requires es != [] && Proper(es, true)
    requires if mark == [] then !IsMark(Written(es[0])[0]) else |mark| == 1 && IsMark(mark[0])
    ensures ParseBracket(mark + (AllWritten(es) + [CLOSE] + p)) == Some(Bracket(mark != [], AllRead(es), p))
  {
    var body := AllWritten(es) + [CLOSE] + p;
    var q := mark + body;
    assert body[0] == Written(es[0])[0];
    ElementsRead(es, true, p);
    if mark != [] {
      assert q[0] == mark[0] && q[1..] == body;
    } else {
      assert q == body;
    }
  }

  lemma BehindOpen(mark: Str, w: Str, p: Str, q: Str)
    requires q == [OPEN] + mark + w + [CLOSE] + p
    ensures q[0] == OPEN && q[1..] == mark + (w + [CLOSE] + p)
  {
  }

  lemma {:induction false} BracketStep(q: Str, b: Bracket, s: Str)
    requires q != [] && q[0] == OPEN && ParseBracket(q[1..]) == Some(b)
    ensures FnMatch(q, s) <==> s != [] && InItems(b.items, s[0]) != b.negated && FnMatch(b.rest, s[1..])
  {
  }

  /** A bracket expression, negated if it starts with a mark, matches one byte: one that its elements denote. */
  lemma {:induction false} BracketMatches(mark: Str, es: seq<Element>, p: Str, s: Str)
    requires es != [] && Proper(es, true)
    requires if mark == [] then !IsMark(Written(es[0])[0]) else |mark| == 1 && IsMark(mark[0])
    ensures FnMatch([OPEN] + mark + AllWritten(es) + [CLOSE] + p, s) <==>
            s != [] && (s[0] in AllDenoted(es)) == (mark == []) && FnMatch(p, s[1..])
  {
    var q := [OPEN] + mark + AllWritten(es) + [CLOSE] + p;
    BehindOpen(mark, AllWritten(es), p, q);
    BracketRead(mark, es, p);
    BracketStep(q, Bracket(mark != [], AllRead(es), p), s);
    if s != [] {
      ItemsMeaning(es, s[0]);
    }
  }

  // ----- the usual forms

  /** A character that stands for itself wherever it is in a bracket expression. */
  predicate Ordinary(c: Byte) {
    c != OPEN && c != CLOSE && c != BACKSLASH && c != DASH && c != DOT && c != EQUALS && c != COLON && !IsMark(c)
  }

  /** `[lo-hi]` and, with a mark, `[!lo-hi]` */
  lemma {:induction false} RangeMatches(mark: Str, lo: Byte, hi: Byte, p: Str, s: Str)
    requires lo != OPEN && lo != BACKSLASH && !IsMark(lo) && hi != OPEN && hi != BACKSLASH && hi != CLOSE
    requires mark == [] || (|mark| == 1 && IsMark(mark[0]))
    ensures FnMatch([OPEN] + mark + [lo, DASH, hi, CLOSE] + p, s) <==>
            s != [] && (lo <= s[0] <= hi) == (mark == []) && FnMatch(p, s[1..])
  {
    var e := Span(Plain(lo), Plain(hi));
    OneElement(e);
    assert [OPEN] + mark + Written(e) + [CLOSE] + p == [OPEN] + mark + [lo, DASH, hi, CLOSE] + p;
    BracketMatches(mark, [e], p, s);
  }

  lemma {:induction false} OneElement(e: Element)
    ensures AllWritten([e]) == Written(e) && AllDenoted([e]) == Denoted(e)
    ensures Proper([e], true) <==> ProperElement(e, true) && Ends(e, [CLOSE])
  {
    assert [e][1..] == [] && AllWritten([]) == [] && AllDenoted([]) == {} && Proper([], false);
    assert AllWritten([e]) == Written(e) + [];
    assert [] + [CLOSE] == [CLOSE];
  }

  /** `[abc]` */
  lemma {:induction false} MembersMatch(mark: Str, cs: Str, p: Str, s: Str)
    requires cs != [] && forall i :: 0 <= i < |cs| ==> Ordinary(cs[i])
    requires mark == [] || (|mark| == 1 && IsMark(mark[0]))
    ensures FnMatch([OPEN] + mark + cs + [CLOSE] + p, s) <==>
            s != [] && (s[0] in cs) == (mark == []) && FnMatch(p, s[1..])
  {
    Singles(cs, true);
    BracketMatches(mark, Single(cs), p, s);
  }

  function Single(cs: Str): (es: seq<Element>)
    ensures |es| == |cs|
  {
    if cs == [] then [] else [One(Plain(cs[0]))] + Single(cs[1..])
  }

  lemma {:induction false} Singles(cs: Str, first: bool)
    requires forall i :: 0 <= i < |cs| ==> Ordinary(cs[i])
    ensures AllWritten(Single(cs)) == cs && Proper(Single(cs), first)
    ensures AllDenoted(Single(cs)) == set c | c in cs
    decreases |cs|
  {
    if cs != [] {
      Singles(cs[1..], false);
      assert Single(cs)[1..] == Single(cs[1..]);
      assert cs == [cs[0]] + cs[1..];
      if |cs| > 1 {
        assert (cs[1..] + [CLOSE])[0] == cs[1];
      }
    }
  }

  /** `[[:name:]]` */
  lemma {:induction false} ClassMatches(mark: Str, name: Str, p: Str, s: Str)
    requires COLON !in name && (mark == [] || (|mark| == 1 && IsMark(mark[0])))
    ensures FnMatch([OPEN] + mark + ([OPEN, COLON] + name + [COLON, CLOSE]) + [CLOSE] + p, s) <==>
            s != [] && (s[0] in Classes(name)) == (mark == []) && FnMatch(p, s[1..])
  {
    OneElement(Group(name));
    BracketMatches(mark, [Group(name)], p, s);
  }

  lemma {:induction false} QuestionStep(p: Str, s: Str)
    ensures FnMatch([QUESTION] + p, s) <==> s != [] && FnMatch(p, s[1..])
  {
    assert ([QUESTION] + p)[1..] == p;
  }

  /** `?` */
  lemma {:induction false} QuestionMatches(p: Str, s: Str)
    ensures FnMatch([QUESTION] + p, s) <==> exists c: Byte, r: Str :: s == [c] + r && FnMatch(p, r)
  {
    QuestionStep(p, s);
    if FnMatch([QUESTION] + p, s) {
      assert s == [s[0]] + s[1..];
    }
    forall c: Byte, r: Str | s == [c] + r && FnMatch(p, r) ensures s != [] && s[1..] == r {
    }
  }

  // ----- a bracket that is not closed

  lemma ItemRest(p: Str)
    requires p != []
    ensures var r := ParseItem(p).1; r == p[|p| - |r|..]
  {
    var r := ParseChar(p).1;
    assert r == p[|p| - |r|..];
    if |r| >= 2 {
      var t := ParseChar(r[1..]).1;
      assert t == r[|r| - |t|..] == p[|p| - |t|..];
    }
  }

  lemma {:induction false} NeverClosed(p: Str, first: bool)
    requires CLOSE !in p
    ensures ParseItems(p, first) == None
    decreases |p|
  {
    if p != [] {
      var r := ParseItem(p).1;
      ItemRest(p);
      assert CLOSE !in r;
      NeverClosed(r, false);
    }
  }

  /** An opening bracket without a closing one stands for itself. */
  lemma {:induction false} UnclosedMatches(p: Str, s: Str)
    requires CLOSE !in p
    ensures FnMatch([OPEN] + p, s) <==> s != [] && s[0] == OPEN && FnMatch(p, s[1..])
  {
    var q := [OPEN] + p;
    assert q[1..] == p;
    NeverClosed(p, true);
    if p != [] {
      assert CLOSE !in p[1..];
      NeverClosed(p[1..], true);
    }
  }

  // ----- whole patterns

  /** An ordinary character, one behind a backslash, `?`, `*`, or a bracket expression. */
  datatype Piece = Literal(c: Byte) | Quoted(c: Byte) | Any | Many | Among(mark: Str, es: seq<Element>)

  function Spelling(x: Piece): Str {
    match x
    case Literal(c) => [c]
    case Quoted(c) => [BACKSLASH, c]
    case Any => [QUESTION]
    case Many => [STAR]
    case Among(mark, es) => [OPEN] + mark + AllWritten(es) + [CLOSE]
  }

  function Pattern(xs: seq<Piece>): Str {
    if xs == [] then [] else Spelling(xs[0]) + Pattern(xs[1..])
  }

  predicate ProperPiece(x: Piece) {
    match x
    case Literal(c) => !IsWild(c) && c != BACKSLASH
    case Among(mark, es) =>
      && es != [] && Proper(es, true)
      && if mark == [] then !IsMark(Written(es[0])[0]) else |mark| == 1 && IsMark(mark[0])
    case _ => true
  }

  /** The strings that a piece stands for. */
  predicate StandsFor(x: Piece, w: Str) {
    match x
    case Literal(c) => w == [c]
    case Quoted(c) => w == [c]
    case Any => |w| == 1
    case Many => true
    case Among(mark, es) => |w| == 1 && (w[0] in AllDenoted(es)) == (mark == [])
  }

  /** A string that is put together from one for each piece. */
  predicate Composed(xs: seq<Piece>, s: Str) {
    if xs == [] then s == []
    else exists k :: 0 <= k <= |s| && StandsFor(xs[0], s[..k]) && Composed(xs[1..], s[k..])
  }

  lemma {:induction false} PieceMatches(x: Piece, p: Str, s: Str)
    requires ProperPiece(x)
    ensures FnMatch(Spelling(x) + p, s) <==> exists k :: 0 <= k <= |s| && StandsFor(x, s[..k]) && FnMatch(p, s[k..])
  {
    var q := Spelling(x) + p;
    assert q[|Spelling(x)|..] == p;
    match x
    case Many =>
      StarMatches(p, s);
    case Among(mark, es) =>
      BracketMatches(mark, es, p, s);
      OneByte(x, p, s);
    case _ =>
      assert FnMatch(q, s) <==> s != [] && StandsFor(x, [s[0]]) && FnMatch(p, s[1..]);
      OneByte(x, p, s);
  }

  lemma {:induction false} OneByte(x: Piece, p: Str, s: Str)
    requires !x.Many?
    ensures (exists k :: 0 <= k <= |s| && StandsFor(x, s[..k]) && FnMatch(p, s[k..])) <==>
            s != [] && StandsFor(x, [s[0]]) && FnMatch(p, s[1..])
  {
    if s != [] {
      assert s[..1] == [s[0]];
    }
    if k :| 0 <= k <= |s| && StandsFor(x, s[..k]) && FnMatch(p, s[k..]) {
      assert |s[..k]| == 1;
    }
  }

  /** A pattern matches exactly the strings that are put together from its pieces. */
  lemma {:induction false} PatternMatches(xs: seq<Piece>, s: Str)
    requires forall i :: 0 <= i < |xs| ==> ProperPiece(xs[i])
    ensures FnMatch(Pattern(xs), s) <==> Composed(xs, s)
    decreases |xs|
  {
    if xs != [] {
      PieceMatches(xs[0], Pattern(xs[1..]), s);
      forall k | 0 <= k <= |s| ensures FnMatch(Pattern(xs[1..]), s[k..]) <==> Composed(xs[1..], s[k..]) {
        PatternMatches(xs[1..], s[k..]);
      }
    }
  }
}
