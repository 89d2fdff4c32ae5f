/**
 fnmatch with flags 0 in the POSIX locale: the pattern matching notation of section 2.13 of the
 Shell Command Language, POSIX.1-2017, without the rules for slashes and leading periods.
 */
module Glob {
  import opened Text

  /** One element of a bracket expression. */
  datatype Item = Range(lo: Byte, hi: Byte) | Class(name: Str)

  /** A bracket expression and the pattern after it. */
  datatype Bracket = Bracket(negated: bool, items: seq<Item>, rest: Str)

  predicate FnMatch(p: Str, s: Str)
    decreases |p| + |s|
  {
    if p == [] then s == []
    else if p[0] == STAR then FnMatch(p[1..], s) || (s != [] && FnMatch(p, s[1..]))
    else if p[0] == QUESTION then s != [] && FnMatch(p[1..], s[1..])
    else if p[0] == BACKSLASH then |p| > 1 && s != [] && s[0] == p[1] && FnMatch(p[2..], s[1..])
    else if p[0] == OPEN && ParseBracket(p[1..]).Some? then
      var b := ParseBracket(p[1..]).value;
      s != [] && InItems(b.items, s[0]) != b.negated && FnMatch(b.rest, s[1..])
    else s != [] && s[0] == p[0] && FnMatch(p[1..], s[1..])
  }

  /** The bracket expression after an opening bracket; none if it is not closed. */
  function ParseBracket(p: Str): (r: Option<Bracket>)
    ensures r.Some? ==> |r.value.rest| < |p|
  {
    var negated := p != [] && (p[0] == 33 || p[0] == 94);
    var body := if negated then p[1..] else p;
    var items := ParseItems(body, true);
    if items.None? then None else Some(Bracket(negated, items.value.0, items.value.1))
  }

  /** The items up to the closing bracket; a closing bracket in first position stands for itself. */
  function ParseItems(p: Str, first: bool): (r: Option<(seq<Item>, Str)>)
    ensures r.Some? ==> |r.value.1| < |p|
    decreases |p|
  {
    if p == [] then None
    else if p[0] == CLOSE && !first then Some(([], p[1..]))
    else
      var (item, rest) := ParseItem(p);
      var more := ParseItems(rest, false);
      if more.None? then None else Some(([item] + more.value.0, more.value.1))
  }

  /** A character class, an equivalence class, a range or a single character. */
  function ParseItem(p: Str): (r: (Item, Str))
    requires p != []
    ensures |r.1| < |p|
  {
    var close := if |p| >= 2 && p[0] == OPEN && p[1] == COLON then FindClassEnd(p, 2) else None;
    if close.Some? then (Class(p[2..close.value]), p[close.value + 2..])
    else if IsNamedChar(p, 61) then (Range(p[2], p[2]), p[5..])
    else
      var (lo, r) := ParseChar(p);
      if |r| >= 2 && r[0] == DASH && r[1] != CLOSE then
        var (hi, rest) := ParseChar(r[1..]);
        (Range(lo, hi), rest)
      else (Range(lo, lo), r)
  }

  /** A character, possibly escaped or written as a collating symbol. */
  function ParseChar(p: Str): (r: (Byte, Str))
    requires p != []
    ensures |r.1| < |p|
  {
    if p[0] == BACKSLASH && |p| >= 2 then (p[1], p[2..])
    else if IsNamedChar(p, 46) then (p[2], p[5..])
    else (p[0], p[1..])
  }

  /** `[=x=]` or `[.x.]` */
  predicate IsNamedChar(p: Str, mark: Byte) {
    |p| >= 5 && p[0] == OPEN && p[1] == mark && p[3] == mark && p[4] == CLOSE
  }

  /** The position of the `:]` that ends a character class name. */
  function FindClassEnd(p: Str, i: nat): (r: Option<nat>)
    ensures r.Some? ==> i <= r.value && r.value + 1 < |p|
    decreases |p| - i
  {
    if i + 1 >= |p| then None
    else if p[i] == COLON && p[i + 1] == CLOSE then Some(i)
    else FindClassEnd(p, i + 1)
  }

  predicate InItems(items: seq<Item>, c: Byte) {
    exists i :: 0 <= i < |items| && InItem(items[i], c)
  }

  predicate InItem(item: Item, c: Byte) {
    match item
    case Range(lo, hi) => lo <= c <= hi
    case Class(name) => InClass(name, c)
  }

  /** The character classes of the POSIX locale; any other name holds no character. */
  predicate InClass(name: Str, c: Byte) {
    var digit, lower, upper := 48 <= c <= 57, 97 <= c <= 122, 65 <= c <= 90;
    var graph := 33 <= c <= 126;
    if name == Ascii("alpha") then lower || upper
    else if name == Ascii("digit") then digit
    else if name == Ascii("alnum") then lower || upper || digit
    else if name == Ascii("upper") then upper
    else if name == Ascii("lower") then lower
    else if name == Ascii("space") then c == 32 || 9 <= c <= 13
    else if name == Ascii("blank") then c == 32 || c == 9
    else if name == Ascii("graph") then graph
    else if name == Ascii("print") then graph || c == 32
    else if name == Ascii("punct") then graph && !(lower || upper || digit)
    else if name == Ascii("cntrl") then c < 32 || c == 127
    else name == Ascii("xdigit") && (digit || 65 <= c <= 70 || 97 <= c <= 102)
  }

  // ----- laws

  /** A star matches any string, including the empty one. */
  lemma {:induction false} StarMatches(p: Str, s: Str)
    ensures FnMatch([STAR] + p, s) <==> exists k :: 0 <= k <= |s| && FnMatch(p, s[k..])
    decreases |s|
  {
    var star := [STAR] + p;
    assert star[1..] == p;
    if s == [] {
      assert s[0..] == s;
    } else {
      StarMatches(p, s[1..]);
      if exists k :: 0 <= k <= |s[1..]| && FnMatch(p, s[1..][k..]) {
        var k :| 0 <= k <= |s[1..]| && FnMatch(p, s[1..][k..]);
        assert s[1..][k..] == s[k + 1..];
      }
      if exists k :: 0 <= k <= |s| && FnMatch(p, s[k..]) {
        var k :| 0 <= k <= |s| && FnMatch(p, s[k..]);
        if k > 0 {
          assert s[1..][k - 1..] == s[k..];
        } else {
          assert s[0..] == s;
        }
      }
      if FnMatch(p, s) {
        assert s[0..] == s;
      }
    }
  }

  /** The characters at which the index stops comparing literally. */
  predicate IsWild(c: Byte) {
    c == STAR || c == QUESTION || c == OPEN
  }

  predicate IsPlain(s: Str) {
    forall i :: 0 <= i < |s| ==> !IsWild(s[i])
  }

  predicate NoEscape(s: Str) {
    forall i :: 0 <= i < |s| ==> s[i] != BACKSLASH
  }

  /** Ordinary characters match themselves. */
  lemma {:induction false} LiteralPrefix(u: Str, p: Str, s: Str)
    requires IsPlain(u) && NoEscape(u)
    ensures FnMatch(u + p, s) <==> u <= s && FnMatch(p, s[|u|..])
    decreases |u|
  {
    if u == [] {
      assert u + p == p && s[0..] == s;
    } else {
      assert (u + p)[1..] == u[1..] + p;
      if s != [] && s[0] == u[0] {
        LiteralPrefix(u[1..], p, s[1..]);
        assert u == [u[0]] + u[1..] && s == [s[0]] + s[1..];
        assert u <= s <==> u[1..] <= s[1..];
        if u <= s {
          assert s[1..][|u[1..]|..] == s[|u|..];
        }
      }
    }
  }

  // ----- the index's view of a pattern

  /** Length of the part before the first wildcard character. */
  function PlainLength(k: Str): (n: nat)
    ensures n <= |k| && IsPlain(k[..n]) && (n < |k| ==> IsWild(k[n]))
  {
    if k == [] || IsWild(k[0]) then 0
    else
      var n := PlainLength(k[1..]);
      assert k[..n + 1] == [k[0]] + k[1..][..n];
      n + 1
  }

  lemma PlainLengthUnique(k: Str, n: nat)
    requires n <= |k| && IsPlain(k[..n]) && (n < |k| ==> IsWild(k[n]))
    ensures n == PlainLength(k)
  {
    var m := PlainLength(k);
    PlainUpTo(k, n);
    PlainUpTo(k, m);
  }

  lemma PlainUpTo(k: Str, n: nat)
    requires n <= |k| && IsPlain(k[..n])
    ensures forall i :: 0 <= i < n ==> !IsWild(k[i])
  {
    forall i | 0 <= i < n ensures !IsWild(k[i]) {
      assert k[..n][i] == k[i];
    }
  }

  lemma PlainIsWhole(u: Str)
    ensures IsPlain(u) <==> PlainLength(u) == |u|
    ensures PlainLength(u) == |u| ==> u[..PlainLength(u)] == u
  {
    if PlainLength(u) == |u| {
      assert u[..|u|] == u;
    }
  }

  /** Equal up to the first wildcard character, fnmatch from there. */
  predicate IndexMatch(k: Str, q: Str) {
    var n := PlainLength(k);
    k[..n] <= q && FnMatch(k[n..], q[n..])
  }

  /** For keys without a backslash before the first wildcard, that is fnmatch. */
  lemma IndexMatchIsFnMatch(k: Str, q: Str)
    requires NoEscape(k[..PlainLength(k)])
    ensures IndexMatch(k, q) <==> FnMatch(k, q)
  {
    var n := PlainLength(k);
    LiteralPrefix(k[..n], k[n..], q);
    assert k == k[..n] + k[n..];
  }

  lemma IndexMatchPlain(u: Str, k: Str, q: Str)
    requires IsPlain(u)
    ensures IndexMatch(u + k, u + q) <==> IndexMatch(k, q)
  {
    var n := PlainLength(k);
    var uk, uq := u + k, u + q;
    assert uk[..|u| + n] == u + k[..n];
    PlainLengthUnique(uk, |u| + n);
    assert uk[|u| + n..] == k[n..];
    PrefixBehind(u, k[..n], q);
    if k[..n] <= q {
      assert uq[|u| + n..] == q[n..];
    }
  }

  lemma PrefixBehind(u: Str, a: Str, q: Str)
    ensures u + a <= u + q <==> a <= q
  {
    if u + a <= u + q {
      assert forall i :: 0 <= i < |a| ==> a[i] == (u + a)[|u| + i] == (u + q)[|u| + i] == q[i];
    }
  }
}
