/** Splitting a string at separator characters, as strtok and the configuration parsers do. */
module Tokens {
  import opened Text

  /** The first position from `i` on that is not a separator. */
  function SkipSeparators(s: Str, i: nat, sep: set<Byte>): (j: nat)
    requires i <= |s|
    ensures i <= j <= |s| && (forall k :: i <= k < j ==> s[k] in sep) && (j < |s| ==> s[j] !in sep)
    decreases |s| - i
  {
    if i < |s| && s[i] in sep then SkipSeparators(s, i + 1, sep) else i
  }

  /** The first position from `i` on that is a separator. */
  function TokenEnd(s: Str, i: nat, sep: set<Byte>): (j: nat)
    requires i <= |s|
    ensures i <= j <= |s| && (forall k :: i <= k < j ==> s[k] !in sep) && (j < |s| ==> s[j] in sep)
    decreases |s| - i
  {
    if i < |s| && s[i] !in sep then TokenEnd(s, i + 1, sep) else i
  }

  /** The maximal runs of other characters from position `i` on. */
  function TokensFrom(s: Str, i: nat, sep: set<Byte>): seq<Str>
    requires i <= |s|
    decreases |s| - i
  {
    var a := SkipSeparators(s, i, sep);
    if a == |s| then []
    else
      var b := TokenEnd(s, a, sep);
      [s[a..b]] + TokensFrom(s, b, sep)
  }

  predicate IsToken(t: Str, sep: set<Byte>) {
    t != [] && forall k :: 0 <= k < |t| ==> t[k] !in sep
  }

  predicate AreTokens(ts: seq<Str>, sep: set<Byte>) {
    forall i :: 0 <= i < |ts| ==> IsToken(ts[i], sep)
  }

  lemma {:induction false} TokensClean(s: Str, i: nat, sep: set<Byte>)
    requires i <= |s|
    ensures AreTokens(TokensFrom(s, i, sep), sep)
    decreases |s| - i
  {
    var a := SkipSeparators(s, i, sep);
    if a < |s| {
      TokensClean(s, TokenEnd(s, a, sep), sep);
    }
  }

  lemma SkipUnique(s: Str, i: nat, sep: set<Byte>, j: nat)
    requires i <= j <= |s| && (forall k :: i <= k < j ==> s[k] in sep) && (j < |s| ==> s[j] !in sep)
    ensures SkipSeparators(s, i, sep) == j
  {
  }

  lemma EndUnique(s: Str, i: nat, sep: set<Byte>, j: nat)
    requires i <= j <= |s| && (forall k :: i <= k < j ==> s[k] !in sep) && (j < |s| ==> s[j] in sep)
    ensures TokenEnd(s, i, sep) == j
  {
  }

  /** One separator, then a token up to a separator or the end. */
  lemma NextToken(s: Str, i: nat, sep: set<Byte>, t: Str)
    requires i + 1 + |t| <= |s| && s[i] in sep && IsToken(t, sep) && s[i + 1..i + 1 + |t|] == t
    requires i + 1 + |t| < |s| ==> s[i + 1 + |t|] in sep
    ensures TokensFrom(s, i, sep) == [t] + TokensFrom(s, i + 1 + |t|, sep)
  {
    forall k | i + 1 <= k < i + 1 + |t| ensures s[k] !in sep {
      assert t[k - i - 1] == s[i + 1..i + 1 + |t|][k - i - 1];
    }
    SkipUnique(s, i, sep, i + 1);
    EndUnique(s, i + 1, sep, i + 1 + |t|);
  }

  // ----- tokens with separators between them

  /** The tokens with the runs of separators around them. */
  function Spaced(gaps: seq<Str>, ts: seq<Str>): Str
    requires |gaps| == |ts| + 1
  {
    if ts == [] then gaps[0] else gaps[0] + ts[0] + Spaced(gaps[1..], ts[1..])
  }

  /** Separators all around, at least one between two tokens. */
  predicate AreGaps(gaps: seq<Str>, sep: set<Byte>) {
    && (forall i, k :: 0 <= i < |gaps| && 0 <= k < |gaps[i]| ==> gaps[i][k] in sep)
    && (forall i :: 0 < i < |gaps| - 1 ==> gaps[i] != [])
  }

  lemma {:induction false} TokensShift(front: Str, x: Str, i: nat, sep: set<Byte>, s: Str, k: nat)
    requires i <= |x| && s == front + x && k == |front| + i
    ensures TokensFrom(s, k, sep) == TokensFrom(x, i, sep)
    decreases |x| - i
  {
    var a := SkipSeparators(x, i, sep);
    var a' := |front| + a;
    assert forall j :: k <= j < a' ==> s[j] == x[j - |front|];
    SkipUnique(s, k, sep, a');
    if a < |x| {
      var b := TokenEnd(x, a, sep);
      var b' := |front| + b;
      assert forall j :: a' <= j < b' ==> s[j] == x[j - |front|];
      EndUnique(s, a', sep, b');
      assert s[a'..b'] == x[a..b];
      TokensShift(front, x, b, sep, s, b');
    }
  }

  /** Separators, a token, and what follows it. */
  lemma {:induction false} FirstToken(gap: Str, t: Str, rest: Str, sep: set<Byte>, s: Str)
    requires s == gap + t + rest && IsToken(t, sep) && (forall k :: 0 <= k < |gap| ==> gap[k] in sep)
    requires rest != [] ==> rest[0] in sep
    ensures TokensFrom(s, 0, sep) == [t] + TokensFrom(rest, 0, sep)
  {
    var a, b := |gap|, |gap| + |t|;
    assert forall j :: 0 <= j < a ==> s[j] == gap[j];
    assert forall j :: a <= j < b ==> s[j] == t[j - a];
    assert b < |s| ==> s[b] == rest[0];
    SkipUnique(s, 0, sep, a);
    EndUnique(s, a, sep, b);
    TokensStep(s, 0, sep, a, b);
    assert s[a..b] == t;
    TokensShift(gap + t, rest, 0, sep, s, b);
  }

  /** Such a string is split into these tokens. */
  lemma {:induction false} SpacedTokens(gaps: seq<Str>, ts: seq<Str>, sep: set<Byte>)
    requires |gaps| == |ts| + 1 && AreGaps(gaps, sep) && AreTokens(ts, sep)
    ensures TokensFrom(Spaced(gaps, ts), 0, sep) == ts
    decreases |ts|
  {
    var s := Spaced(gaps, ts);
    if ts == [] {
      SkipUnique(s, 0, sep, |s|);
    } else {
      SpacedTokens(gaps[1..], ts[1..], sep);
      SpacedStart(gaps[1..], ts[1..], sep);
      FirstToken(gaps[0], ts[0], Spaced(gaps[1..], ts[1..]), sep, s);
    }
  }

  lemma {:induction false} TokensStep(s: Str, i: nat, sep: set<Byte>, a: nat, b: nat)
    requires i <= |s| && a == SkipSeparators(s, i, sep) && a < |s| && b == TokenEnd(s, a, sep)
    ensures TokensFrom(s, i, sep) == [s[a..b]] + TokensFrom(s, b, sep)
  {
  }

  /** Separators in front do not matter. */
  lemma {:induction false} TokensSkip(s: Str, i: nat, j: nat, sep: set<Byte>)
    requires i <= j <= |s| && SkipSeparators(s, i, sep) == SkipSeparators(s, j, sep)
    ensures TokensFrom(s, i, sep) == TokensFrom(s, j, sep)
  {
  }

  lemma SpacedStart(gaps: seq<Str>, ts: seq<Str>, sep: set<Byte>)
    requires |gaps| == |ts| + 1 && AreGaps(gaps, sep) && (ts != [] ==> gaps[0] != [])
    ensures var s := Spaced(gaps, ts); s != [] ==> s[0] in sep
  {
  }

  // ----- counting characters

  /** How many characters from `i` on are not separators. */
  function Inked(s: Str, i: nat, sep: set<Byte>): nat
    requires i <= |s|
    decreases |s| - i
  {
    if i == |s| then 0 else Inked(s, i + 1, sep) + if s[i] in sep then 0 else 1
  }

  function TotalLength(ts: seq<Str>): nat {
    if ts == [] then 0 else |ts[0]| + TotalLength(ts[1..])
  }

  lemma {:induction false} InkedOverSeparators(s: Str, i: nat, j: nat, sep: set<Byte>)
    requires i <= j <= |s| && forall k :: i <= k < j ==> s[k] in sep
    ensures Inked(s, i, sep) == Inked(s, j, sep)
    decreases j - i
  {
    if i < j {
      InkedOverSeparators(s, i + 1, j, sep);
    }
  }

  lemma {:induction false} InkedOverToken(s: Str, i: nat, j: nat, sep: set<Byte>)
    requires i <= j <= |s| && forall k :: i <= k < j ==> s[k] !in sep
    ensures Inked(s, i, sep) == j - i + Inked(s, j, sep)
    decreases j - i
  {
    if i < j {
      InkedOverToken(s, i + 1, j, sep);
    }
  }

  /** The tokens hold every character that is not a separator. */
  lemma {:induction false} TokensLength(s: Str, i: nat, sep: set<Byte>)
    requires i <= |s|
    ensures TotalLength(TokensFrom(s, i, sep)) == Inked(s, i, sep)
    decreases |s| - i
  {
    var a := SkipSeparators(s, i, sep);
    InkedOverSeparators(s, i, a, sep);
    if a < |s| {
      var b := TokenEnd(s, a, sep);
      InkedOverToken(s, a, b, sep);
      TokensLength(s, b, sep);
    }
  }
}
