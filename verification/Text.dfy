/**
 Bytes, C strings and their byte order, and the error numbers. A C string is a sequence of bytes without the
 terminator.
 */
module Text {

  type Byte = b: int | 0 <= b < 256

  type Str = seq<Byte>

  const TAB: Byte := 9
  const NEWLINE: Byte := 10
  const SPACE: Byte := 32
  const QUOTE: Byte := 34
  const STAR: Byte := 42
  const COMMA: Byte := 44
  const DASH: Byte := 45
  const DOT: Byte := 46
  const SLASH: Byte := 47
  const COLON: Byte := 58
  const EQUALS: Byte := 61
  const QUESTION: Byte := 63
  const OPEN: Byte := 91
  const BACKSLASH: Byte := 92
  const CLOSE: Byte := 93
  const UNDERSCORE: Byte := 95

  /** isspace in the POSIX locale */
  const SPACES: set<Byte> := {32, 9, 10, 11, 12, 13}

  const ENOENT := 2
  const EAGAIN := 11
  const ENOMEM := 12
  const EEXIST := 17
  const EINVAL := 22

  datatype Option<+T> = None | Some(value: T)

  /**
   A trigger that is always true: a fact stated for all `k` with Asked(k) stays out of the way of a proof
   that does not mention it.
   */
  ghost predicate Asked(k: int) {
    k - k == 0
  }

  /** No terminator inside the string. */
  predicate IsCString(s: Str) {
    forall i :: 0 <= i < |s| ==> s[i] != 0
  }

  /** A C string of 7-bit characters, the only keys the module index supports. */
  predicate IsAscii(s: Str) {
    forall i :: 0 <= i < |s| ==> 0 < s[i] < 128
  }

  /** The bytes of a string literal of 7-bit characters. */
  function Ascii(s: string): Str {
    seq(|s|, i requires 0 <= i < |s| => if s[i] < 128 as char then s[i] as int else 0)
  }

  /** strcmp(a, b) < 0 */
  predicate Less(a: Str, b: Str) {
    b != [] && (a == [] || a[0] < b[0] || (a[0] == b[0] && Less(a[1..], b[1..])))
  }

  lemma LessIrreflexive(a: Str)
    ensures !Less(a, a)
  {
  }

  lemma {:induction false} LessTransitive(a: Str, b: Str, c: Str)
    requires Less(a, b) && Less(b, c)
    ensures Less(a, c)
    decreases |a|
  {
    if a != [] && a[0] == b[0] && b[0] == c[0] {
      LessTransitive(a[1..], b[1..], c[1..]);
    }
  }

  lemma {:induction false} LessTotal(a: Str, b: Str)
    ensures Less(a, b) || a == b || Less(b, a)
    decreases |a|
  {
    if a != [] && b != [] && a[0] == b[0] {
      LessTotal(a[1..], b[1..]);
      assert a == [a[0]] + a[1..] && b == [b[0]] + b[1..];
    }
  }

  /** A common first part does not affect the order of the rest. */
  lemma {:induction false} LessAppend(p: Str, a: Str, b: Str)
    ensures Less(p + a, p + b) == Less(a, b)
    decreases |p|
  {
    if p == [] {
      assert p + a == a && p + b == b;
    } else {
      assert (p + a)[1..] == p[1..] + a && (p + b)[1..] == p[1..] + b;
      LessAppend(p[1..], a, b);
    }
  }

  /** What a function gives for each element, one after the other. */
  function FlatMap<A, B>(f: A -> seq<B>, xs: seq<A>): seq<B> {
    if xs == [] then [] else FlatMap(f, xs[..|xs| - 1]) + f(xs[|xs| - 1])
  }

  lemma FlatMapOne<A, B>(f: A -> seq<B>, x: A)
    ensures FlatMap(f, [x]) == f(x)
  {
    assert [x][..0] == [] && FlatMap(f, []) == [];
    assert FlatMap(f, [x]) == FlatMap(f, [x][..0]) + f([x][0]);
  }

  lemma {:induction false} FlatMapAppend<A, B>(f: A -> seq<B>, a: seq<A>, b: seq<A>)
    ensures FlatMap(f, a + b) == FlatMap(f, a) + FlatMap(f, b)
    decreases |b|
  {
    if b == [] {
      assert a + b == a;
    } else {
      assert (a + b)[..|a + b| - 1] == a + b[..|b| - 1];
      FlatMapAppend(f, a, b[..|b| - 1]);
    }
  }
}
