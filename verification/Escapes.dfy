/**
 Stored keys with backslashes: the index compares them literally up to the first wildcard character, fnmatch takes
 a backslash for an escape. Which keys the two read alike.
 */
module Escapes {
  import opened Text
  import opened Glob

  /** What fnmatch reads a part without wildcards as: a backslash stands for the character behind it. */
  function Unescaped(u: Str): (r: Str)
    ensures |r| <= |u| && (!NoEscape(u) ==> |r| < |u|)
  {
    if u == [] then []
    else if u[0] != BACKSLASH then [u[0]] + Unescaped(u[1..])
    else if |u| == 1 then []
    else [u[1]] + Unescaped(u[2..])
  }

  /** The last backslash has nothing behind it. */
  predicate Dangling(u: Str) {
    u != [] && if u[0] != BACKSLASH then Dangling(u[1..]) else |u| == 1 || Dangling(u[2..])
  }

  /** No string matches the pattern. */
  ghost predicate Hopeless(p: Str) {
    forall x :: !FnMatch(p, x)
  }

  /** No byte is among the items, or, if they are negated, every byte is. */
  predicate NoByte(b: Bracket) {
    forall c :: 0 <= c < 256 ==> InItems(b.items, c) == b.negated
  }

  /** A pattern element that nothing matches: a backslash at the end, or a bracket expression for no byte. */
  predicate Unmatchable(p: Str)
    decreases |p|
  {
    if p == [] then false
    else if p[0] == BACKSLASH then |p| == 1 || Unmatchable(p[2..])
    else if p[0] == OPEN && ParseBracket(p[1..]).Some? then
      var b := ParseBracket(p[1..]).value;
      NoByte(b) || Unmatchable(b.rest)
    else Unmatchable(p[1..])
  }

  /** Without such an element, there is a match. */
  lemma {:induction false} SomeMatch(p: Str) returns (x: Str)
    requires !Unmatchable(p)
    ensures FnMatch(p, x)
    decreases |p|
  {
    if p == [] {
      x := [];
    } else if p[0] == STAR {
      x := SomeMatch(p[1..]);
    } else if p[0] == QUESTION {
      x := SomeMatch(p[1..]);
      x := Onto(p[0], x);
    } else if p[0] == BACKSLASH {
      x := SomeMatch(p[2..]);
      x := Onto(p[1], x);
    } else if p[0] == OPEN && ParseBracket(p[1..]).Some? {
      var b := ParseBracket(p[1..]).value;
      x := SomeMatch(b.rest);
      var c: int :| 0 <= c < 256 && InItems(b.items, c) != b.negated;
      x := Onto(c, x);
    } else {
      x := SomeMatch(p[1..]);
      x := Onto(p[0], x);
    }
  }

  lemma Onto(c: Byte, x: Str) returns (y: Str)
    ensures y == [c] + x && y[0] == c && y[1..] == x
  {
    y := [c] + x;
  }

  /** With one, there is none. */
  lemma {:induction false} NoMatch(p: Str, x: Str)
    requires Unmatchable(p)
    ensures !FnMatch(p, x)
    decreases |p| + |x|
  {
    if p[0] == STAR {
      NoMatch(p[1..], x);
      if x != [] {
        NoMatch(p, x[1..]);
      }
    } else if x != [] {
      if p[0] == BACKSLASH {
        if |p| > 1 {
          NoMatch(p[2..], x[1..]);
        }
      } else if p[0] == OPEN && ParseBracket(p[1..]).Some? {
        var b := ParseBracket(p[1..]).value;
        if !NoByte(b) {
          NoMatch(b.rest, x[1..]);
        }
      } else {
        NoMatch(p[1..], x[1..]);
      }
    }
  }

  /** So the condition can be computed. */
  lemma HopelessIff(p: Str)
    ensures Hopeless(p) <==> Unmatchable(p)
  {
    if Unmatchable(p) {
      forall x ensures !FnMatch(p, x) {
        NoMatch(p, x);
      }
    } else {
      var x := SomeMatch(p);
    }
  }

  lemma HeadMatch(a: Byte, r: Str, s: Str)
    requires s != [] && s[0] == a
    ensures [a] + r <= s <==> r <= s[1..]
    ensures r <= s[1..] ==> s[1..][|r|..] == s[|[a] + r|..]
  {
    assert s == [a] + s[1..];
    PrefixBehind([a], r, s[1..]);
  }

  /** The part before the first wildcard, read with its escapes. */
  lemma {:induction false} EscapedPrefix(u: Str, w: Str, s: Str)
    requires IsPlain(u) && !Dangling(u)
    ensures FnMatch(u + w, s) <==> Unescaped(u) <= s && FnMatch(w, s[|Unescaped(u)|..])
    decreases |u|
  {
    if u == [] {
      assert u + w == w && s[0..] == s;
    } else {
      var n := if u[0] == BACKSLASH then 2 else 1;
      assert (u + w)[n..] == u[n..] + w;
      if s != [] && s[0] == u[n - 1] {
        EscapedPrefix(u[n..], w, s[1..]);
        HeadMatch(u[n - 1], Unescaped(u[n..]), s);
      }
    }
  }

  /** The last backslash stands behind a part without one that dangles. */
  lemma {:induction false} DanglingFront(u: Str)
    requires Dangling(u)
    ensures var v := u[..|u| - 1]; u == v + [BACKSLASH] && !Dangling(v) && Unescaped(v) == Unescaped(u)
  {
    if |u| > 1 {
      var n := if u[0] == BACKSLASH then 2 else 1;
      DanglingFront(u[n..]);
      var v := u[..|u| - 1];
      Middle(u, n);
    }
  }

  lemma Middle(u: Str, n: nat)
    requires n < |u|
    ensures u[..|u| - 1][n..] == u[n..][..|u[n..]| - 1] && u == u[..|u| - 1] + [u[|u| - 1]]
    ensures u[n..][|u[n..]| - 1] == u[|u| - 1]
  {
  }

  lemma EscapedHead(w: Str, r: Str)
    ensures FnMatch([BACKSLASH] + w, r) <==> w != [] && r != [] && r[0] == w[0] && FnMatch(w[1..], r[1..])
  {
    var p := [BACKSLASH] + w;
    if w != [] {
      assert p[2..] == w[1..];
    }
  }

  /** If its last backslash has nothing behind it, it takes the wildcard's meaning away. */
  lemma DanglingPrefix(u: Str, w: Str, s: Str)
    requires IsPlain(u) && Dangling(u)
    ensures FnMatch(u + w, s) <==>
            w != [] && Unescaped(u) + [w[0]] <= s && FnMatch(w[1..], s[|Unescaped(u)| + 1..])
  {
    var v, lit := u[..|u| - 1], Unescaped(u);
    DanglingFront(u);
    assert u + w == v + ([BACKSLASH] + w);
    EscapedPrefix(v, [BACKSLASH] + w, s);
    if lit <= s {
      var r := s[|lit|..];
      EscapedHead(w, r);
      assert s == lit + r;
      if w != [] {
        PrefixBehind(lit, [w[0]], r);
        assert [w[0]] <= r <==> r != [] && r[0] == w[0];
        assert r != [] ==> r[1..] == s[|lit| + 1..];
      }
    }
  }

  /** A shortest match. */
  lemma Shortest(w: Str, x: Str) returns (y: Str)
    requires FnMatch(w, x)
    ensures FnMatch(w, y) && forall z :: FnMatch(w, z) ==> |y| <= |z|
    decreases |x|
  {
    if z :| FnMatch(w, z) && |z| < |x| {
      y := Shortest(w, z);
    } else {
      y := x;
    }
  }

  /** The index and fnmatch read the key alike, whatever the query. */
  ghost predicate ReadAlike(k: Str) {
    forall q :: IndexMatch(k, q) == FnMatch(k, q)
  }

  /** An escape in front of a pattern that something matches: the shortest match tells the two apart. */
  lemma {:induction false} EscapeSeparates(u: Str, w: Str, x: Str)
    requires IsPlain(u) && !NoEscape(u) && !Dangling(u) && PlainLength(u + w) == |u| && FnMatch(w, x)
    ensures !ReadAlike(u + w)
  {
    var y := Shortest(w, x);
    var k, q := u + w, Unescaped(u) + y;
    EscapedPrefix(u, w, q);
    assert q[|Unescaped(u)|..] == y && k[..|u|] == u && k[|u|..] == w;
    assert FnMatch(k, q) && !IndexMatch(k, q);
  }

  /** An escaped wildcard: the index still takes it for one. */
  lemma {:induction false} DanglingSeparates(u: Str, w: Str, x: Str)
    requires IsPlain(u) && Dangling(u) && PlainLength(u + w) == |u| && (w != [] ==> IsWild(w[0])) && FnMatch(w, x)
    ensures !ReadAlike(u + w)
  {
    var k, q := u + w, u + x;
    DanglingPrefix(u, w, q);
    assert k[..|u|] == u && k[|u|..] == w && q[|u|..] == x;
    assert IndexMatch(k, q);
    DanglingEscape(u);
    if w != [] {
      NoWildcardThere(u, x, Unescaped(u), w[0]);
    }
  }

  lemma NoWildcardThere(u: Str, x: Str, lit: Str, c: Byte)
    requires IsPlain(u) && IsWild(c) && |lit| < |u|
    ensures !(lit + [c] <= u + x)
  {
    var i := |lit|;
    assert (lit + [c])[i] == c && (u + x)[i] == u[i];
  }

  lemma {:induction false} DanglingEscape(u: Str)
    requires Dangling(u)
    ensures !NoEscape(u)
  {
    DanglingFront(u);
    assert u[|u| - 1] == BACKSLASH;
  }

  /** No escape, or nothing to match from the first wildcard on, be it a wildcard or escaped. */
  predicate Harmless(u: Str, w: Str) {
    NoEscape(u) || (Unmatchable(w) && (Dangling(u) && w != [] ==> Unmatchable(w[1..])))
  }

  /**
   Exactly the keys that the index reads as fnmatch does: those without a backslash before the first wildcard, and
   those whose remainder nothing matches.
   */
  lemma KeyReadAlikeIff(k: Str)
    ensures var n := PlainLength(k); ReadAlike(k) <==> Harmless(k[..n], k[n..])
  {
    var n := PlainLength(k);
    var u, w := k[..n], k[n..];
    assert k == u + w;
    HopelessIff(w);
    if w != [] {
      HopelessIff(w[1..]);
    }
    if NoEscape(u) {
      forall q ensures IndexMatch(k, q) == FnMatch(k, q) {
        IndexMatchIsFnMatch(k, q);
      }
    } else if x :| FnMatch(w, x) {
      if Dangling(u) {
        DanglingSeparates(u, w, x);
      } else {
        EscapeSeparates(u, w, x);
      }
    } else {
      HopelessRest(u, w);
    }
  }

  /** Nothing matches from the wildcard on: the index never finds the key. */
  lemma HopelessRest(u: Str, w: Str)
    requires IsPlain(u) && PlainLength(u + w) == |u| && Hopeless(w)
    ensures ReadAlike(u + w) <==> (Dangling(u) && w != [] ==> Hopeless(w[1..]))
  {
    var k := u + w;
    assert k[|u|..] == w;
    forall q ensures !IndexMatch(k, q) {
    }
    if Dangling(u) && w != [] {
      if x :| FnMatch(w[1..], x) {
        var q := Unescaped(u) + [w[0]] + x;
        DanglingPrefix(u, w, q);
        assert q[|Unescaped(u)| + 1..] == x;
        assert FnMatch(k, q) && !IndexMatch(k, q);
      } else {
        forall q ensures !FnMatch(k, q) {
          DanglingPrefix(u, w, q);
        }
      }
    } else {
      forall q ensures !FnMatch(k, q) {
        if Dangling(u) {
          DanglingPrefix(u, w, q);
        } else {
          EscapedPrefix(u, w, q);
        }
      }
    }
  }

  /** A key without wildcards is found as fnmatch would if and only if it has no backslash. */
  lemma LiteralKeyIffNoEscape(k: Str)
    requires IsPlain(k)
    ensures NoEscape(k) <==> ReadAlike(k)
  {
    PlainIsWhole(k);
    KeyReadAlikeIff(k);
    assert k[..|k|] == k && k[|k|..] == [];
    assert FnMatch([], []);
  }
}
