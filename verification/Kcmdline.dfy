/** The command-line parser: one pass over the buffer, which it cuts into strings and re-quotes in place. */
module Kcmdline {
  import opened Text
  import opened Tokens
  import opened KcmdlineSpec

  datatype Mode = Ignoring | InModname | InParam | InValue

  /** The parser's variables besides the cursor: positions point into the buffer. */
  datatype Machine = Machine(mode: Mode, quoted: bool, quoteStart: Option<nat>, modname: nat, param: nat, value: nat)

  // ----- what the variables mean

  /** The option starting at `start` has an opening quote, and the cursor is past it. */
  predicate Opened(s: Str, start: nat, p: nat)
    requires p <= |s|
  {
    start < p && s[start] == QUOTE
  }

  function Base(s: Str, start: nat, p: nat): nat
    requires p <= |s|
  {
    if Opened(s, start, p) then start + 1 else start
  }

  /** What of the option is behind the cursor, without the opening quote. */
  function Behind(s: Str, start: nat, p: nat): Str
    requires start <= p <= |s|
  {
    s[Base(s, start, p)..p]
  }

  /** Mode and positions say how far the option has got. */
  ghost predicate InPhase(ph: Phase, base: nat, m: Machine) {
    match ph
    case Naming => m.mode == InModname
    case Param(a) => m.mode == InParam && m.param == base + a + 1
    case Valued(a, b) => m.mode == InValue && m.param == base + a + 1 && m.value == base + b + 1
    case Dead => m.mode == Ignoring
  }

  /** Mode and positions fit what is behind the cursor. */
  ghost predicate InPhaseOf(u: Str, base: nat, m: Machine) {
    forall k :: Asked(k) ==> InPhase(PhaseOf(u), base, m)
  }

  lemma Unlock(u: Str, base: nat, m: Machine)
    ensures InPhaseOf(u, base, m) <==> InPhase(PhaseOf(u), base, m)
  {
    if InPhaseOf(u, base, m) {
      assert Asked(0);
    }
  }

  ghost predicate Tracks(s: Str, start: nat, p: nat, m: Machine) {
    && start <= p <= |s|
    && m.quoted == Quoted(s, start, p)
    && m.modname == Base(s, start, p)
    && m.quoteStart == (if Opened(s, start, p) then Some(start) else None)
    && InPhaseOf(Behind(s, start, p), Base(s, start, p), m)
  }

  /** Nothing at or after the cursor is rewritten; behind it only the dot of the current option. */
  ghost predicate Intact(b: seq<Byte>, s: Str, start: nat, p: nat, m: Machine) {
    && start <= p <= |s| < |b| && b[|s|] == 0
    && (forall k :: p <= k < |s| ==> b[k] == s[k])
    && (m.mode != Ignoring ==>
        forall k :: Base(s, start, p) <= k < p ==>
          b[k] == if m.mode != InModname && k + 1 == m.param then 0 else s[k])
  }

  /** The variables at the start of an option; those for the parameter and value are left as they were. */
  function Restart(m: Machine, start: nat): Machine {
    Machine(InModname, false, None, start, m.param, m.value)
  }

  lemma Fresh(b: seq<Byte>, s: Str, start: nat, m: Machine)
    requires start <= |s| < |b| && b[|s|] == 0 && forall k :: start <= k < |s| ==> b[k] == s[k]
    ensures Tracks(s, start, start, Restart(m, start)) && Intact(b, s, start, start, Restart(m, start))
  {
    assert Behind(s, start, start) == [];
    Unlock([], start, Restart(m, start));
  }

  // ----- one character inside an option

  function AtQuote(m: Machine, p: nat): Machine {
    var on := m.(quoted := !m.quoted);
    if on.quoted && on.mode == InModname && p == on.modname then on.(quoteStart := Some(p), modname := p + 1)
    else if on.mode != InValue then on.(mode := Ignoring)
    else on
  }

  function Take(m: Machine, p: nat, c: Byte): Machine {
    if c == QUOTE then AtQuote(m, p)
    else if c in SPACES then if m.mode == InValue then m else m.(mode := Ignoring)
    else if c == DOT then
      if m.mode == InModname then m.(mode := InParam, param := p + 1)
      else if m.mode == InParam then m.(mode := Ignoring)
      else m
    else if c == EQUALS then
      if m.mode == InParam then m.(mode := InValue, value := p + 1)
      else if m.mode == InModname then m.(mode := Ignoring)
      else m
    else m
  }

  lemma BehindNext(s: Str, start: nat, p: nat)
    requires start <= p < |s| && !(p == start && s[p] == QUOTE)
    ensures Opened(s, start, p + 1) == Opened(s, start, p)
    ensures Behind(s, start, p + 1) == Behind(s, start, p) + [s[p]]
  {
  }

  lemma TakeOpening(s: Str, start: nat, m: Machine)
    requires start < |s| && s[start] == QUOTE && Tracks(s, start, start, m)
    ensures Tracks(s, start, start + 1, AtQuote(m, start))
  {
    assert Behind(s, start, start) == [] && Behind(s, start, start + 1) == [];
    assert Quoted(s, start, start + 1) && !Quoted(s, start, start);
    Unlock([], start, m);
    Unlock([], start + 1, AtQuote(m, start));
  }

  lemma TakePhase(ph: Phase, base: nat, n: nat, m: Machine, c: Byte)
    requires InPhase(ph, base, m)
    requires c == QUOTE ==> !(!m.quoted && m.mode == InModname && base + n == m.modname)
    ensures InPhase(Advance(ph, n, c), base, Take(m, base + n, c))
  {
  }

  lemma TakeTracks(s: Str, start: nat, p: nat, m: Machine)
    requires p < |s| && Tracks(s, start, p, m)
    ensures Tracks(s, start, p + 1, Take(m, p, s[p]))
  {
    var c, base := s[p], Base(s, start, p);
    if p == start && c == QUOTE {
      TakeOpening(s, start, m);
    } else {
      TakeInside(s, start, p, m, base, Behind(s, start, p));
    }
  }

  lemma TakeInside(s: Str, start: nat, p: nat, m: Machine, base: nat, u: Str)
    requires p < |s| && Tracks(s, start, p, m) && !(p == start && s[p] == QUOTE)
    requires base == Base(s, start, p) && u == Behind(s, start, p)
    ensures Tracks(s, start, p + 1, Take(m, p, s[p]))
  {
    BehindNext(s, start, p);
    assert Opened(s, start, p) && p == base ==> Quoted(s, start, p);
    TakeNext(u, base, m, s[p]);
  }

  lemma TakeNext(u: Str, base: nat, m: Machine, c: Byte)
    requires InPhaseOf(u, base, m)
    requires c == QUOTE ==> !(!m.quoted && m.mode == InModname && base + |u| == m.modname)
    ensures InPhaseOf(u + [c], base, Take(m, base + |u|, c))
  {
    Unlock(u, base, m);
    PhaseNext(u, c);
    TakePhase(PhaseOf(u), base, |u|, m, c);
    Unlock(u + [c], base, Take(m, base + |u|, c));
  }

  /** The dot behind the module name is overwritten. */
  predicate Cuts(m: Machine, c: Byte) {
    c == DOT && m.mode == InModname
  }

  lemma TakeIntact(b: seq<Byte>, s: Str, start: nat, p: nat, m: Machine)
    requires p < |s| && Tracks(s, start, p, m) && Intact(b, s, start, p, m)
    ensures Intact(if Cuts(m, s[p]) then b[p := 0] else b, s, start, p + 1, Take(m, p, s[p]))
  {
    var base, b', m' := Base(s, start, p), if Cuts(m, s[p]) then b[p := 0] else b, Take(m, p, s[p]);
    ParamBehind(s, start, p, m);
    if !(p == start && s[p] == QUOTE) {
      BehindNext(s, start, p);
      if m'.mode != Ignoring {
        forall k | base <= k < p + 1 ensures b'[k] == if m'.mode != InModname && k + 1 == m'.param then 0 else s[k] {
        }
      }
    }
  }

  lemma ParamBehind(s: Str, start: nat, p: nat, m: Machine)
    requires Tracks(s, start, p, m)
    ensures m.mode == InParam || m.mode == InValue ==> m.param <= p
  {
    Unlock(Behind(s, start, p), Base(s, start, p), m);
  }

  // ----- the end of an option

  /** The string `t` with its terminator stands at `i`. */
  predicate StringIn(b: seq<Byte>, i: nat, t: Str) {
    i + |t| < |b| && b[i..i + |t|] == t && b[i + |t|] == 0 && IsCString(t)
  }

  lemma StringBytes(b: seq<Byte>, i: nat, t: Str)
    requires StringIn(b, i, t)
    ensures forall k :: i <= k < i + |t| ==> b[k] == t[k - i] && b[k] != 0
  {
    forall k | i <= k < i + |t| ensures b[k] == t[k - i] {
      assert b[i..i + |t|][k - i] == b[k];
    }
  }

  method StringAt(buf: array<Byte>, i: nat, ghost t: Str) returns (r: Str)
    requires StringIn(buf[..], i, t)
    ensures r == t
  {
    StringBytes(buf[..], i, t);
    var e := i;
    while buf[e] != 0
      invariant i <= e <= i + |t|
      decreases i + |t| - e
    {
      e := e + 1;
    }
    r := buf[i..e];
  }

  /** `u` stands at `base` up to the terminator at `p`, its dot overwritten. */
  ghost predicate CutAt(b: seq<Byte>, base: nat, u: Str, a: nat) {
    && a < |u| && base + |u| < |b| && b[base + |u|] == 0 && IsCString(u)
    && forall k :: base <= k < base + |u| ==> b[k] == if k == base + a then 0 else u[k - base]
  }

  /** Then the part before the dot is a string, and so is every part that starts behind it. */
  lemma CutStrings(b: seq<Byte>, base: nat, u: Str, a: nat, j: nat)
    requires CutAt(b, base, u, a) && a < j <= |u|
    ensures StringIn(b, base, u[..a]) && StringIn(b, base + j, u[j..])
  {
    assert b[base..base + a] == u[..a];
    assert b[base + j..base + |u|] == u[j..];
  }

  lemma IntactCut(b: seq<Byte>, s: Str, start: nat, p: nat, m: Machine, a: nat)
    requires Tracks(s, start, p, m) && Intact(b, s, start, p, m) && IsCString(s)
    requires (m.mode == InParam || m.mode == InValue) && m.param == m.modname + a + 1
    ensures CutAt(b[p := 0], m.modname, Behind(s, start, p), a)
  {
    Unlock(Behind(s, start, p), Base(s, start, p), m);
  }

  /** The option with its opening quote in front of the value. */
  function Requoted(u: Str, e: nat): Str
    requires e < |u|
  {
    u[..e + 1] + [QUOTE] + u[e + 1..]
  }

  /** Moving the name and the parameter over the opening quote, and a quote in front of the value. */
  lemma RequoteCut(b: seq<Byte>, c: seq<Byte>, at: nat, u: Str, a: nat, e: nat)
    requires CutAt(b, at + 1, u, a) && a < e < |u| && |c| == |b|
    requires forall k :: at <= k <= at + e ==> c[k] == b[k + 1]
    requires c[at + e + 1] == QUOTE && forall k :: at + e + 1 < k < |b| ==> c[k] == b[k]
    ensures CutAt(c, at, Requoted(u, e), a)
  {
    var w := Requoted(u, e);
    forall k | at <= k < at + |w| ensures c[k] == if k == at + a then 0 else w[k - at] {
      if k <= at + e {
        assert w[k - at] == u[k - at];
      } else if k > at + e + 1 {
        assert w[k - at] == u[k - at - 1];
      }
    }
  }

  /** memmove to the place before, then a quote where the moved part ended */
  method Requote(buf: array<Byte>, dst: nat, n: nat)
    requires dst + n < buf.Length
    modifies buf
    ensures forall k :: dst <= k < dst + n ==> buf[k] == old(buf[k + 1])
    ensures buf[dst + n] == QUOTE
    ensures forall k :: dst + n < k < buf.Length ==> buf[k] == old(buf[k])
  {
    var moved := buf[dst + 1..dst + 1 + n];
    forall k | dst <= k < dst + n {
      buf[k] := moved[k - dst];
    }
    buf[dst + n] := QUOTE;
  }

  /** kcmdline_parse_result */
  method ParseResult(modname: Str, param: Str, value: Str) returns (effects: seq<Effect>)
    requires BLACKLIST <= param ==> value == param[|BLACKLIST|..]
    ensures effects == Effects(modname, param)
  {
    if modname == MODPROBE && BLACKLIST <= param {
      effects := BlacklistAll(value);
    } else {
      var name := Underscores(modname);
      effects := if name.Some? then [Options(name.value, TabsToSpaces(param))] else [];
    }
  }

  method BlacklistAll(value: Str) returns (effects: seq<Effect>)
    ensures effects == Blacklists(Pieces(value, 0))
  {
    var i, more := 0, true;
    ghost var done: seq<Str> := [];
    effects := [];
    while more
      invariant i <= |value| && effects == Blacklists(done)
      invariant Pieces(value, 0) == if more then done + Pieces(value, i) else done
      decreases more, |value| - i
    {
      var e := TokenEnd(value, i, {COMMA});
      var name := value[i..e];
      BlacklistsNext(done, name);
      PiecesNext(done, value, i, e, name);
      effects := effects + [Blacklist(name)];
      done := done + [name];
      if e == |value| {
        more := false;
      } else {
        i := e + 1;
      }
    }
  }

  lemma PiecesNext(done: seq<Str>, value: Str, i: nat, e: nat, t: Str)
    requires i <= |value| && e == TokenEnd(value, i, {COMMA}) && t == value[i..e]
    ensures done + Pieces(value, i) == done + [t] + if e == |value| then [] else Pieces(value, e + 1)
  {
    PiecesStep(value, i, e, t);
    if e < |value| {
      var rest := Pieces(value, e + 1);
      assert done + ([t] + rest) == done + [t] + rest;
    }
  }

  lemma PiecesStep(value: Str, i: nat, e: nat, t: Str)
    requires i <= |value| && e == TokenEnd(value, i, {COMMA}) && t == value[i..e]
    ensures Pieces(value, i) == if e == |value| then [t] else [t] + Pieces(value, e + 1)
  {
    assert e == |value| ==> value[i..] == t;
  }

  lemma BlacklistsNext(done: seq<Str>, name: Str)
    ensures Blacklists(done + [name]) == Blacklists(done) + [Blacklist(name)]
  {
    assert (done + [name])[..|done|] == done;
  }

  /** Outside quotes, an option that has got to its parameter did not start with a quote. */
  lemma ParamNotOpened(s: Str, start: nat, p: nat, m: Machine)
    requires Tracks(s, start, p, m) && !m.quoted && m.mode == InParam
    ensures !Opened(s, start, p)
  {
    if Opened(s, start, p) {
      Unlock(Behind(s, start, p), Base(s, start, p), m);
      QuoteFree(Behind(s, start, p));
      StillQuoted(s, start, p);
    }
  }

  lemma {:induction false} StillQuoted(s: Str, start: nat, p: nat)
    requires start < p <= |s| && s[start] == QUOTE && QUOTE !in s[start + 1..p]
    ensures Quoted(s, start, p)
    decreases p
  {
    if p > start + 1 {
      assert s[p - 1] == s[start + 1..p][p - 1 - start - 1];
      assert s[start + 1..p - 1] == s[start + 1..p][..p - start - 2];
      StillQuoted(s, start, p - 1);
    }
  }

  /** A finished option as it stands in the buffer at last: with its opening quote, if any, in front of the value. */
  function Settled(u: Str, requote: bool, e: nat): Str
    requires requote ==> e < |u|
  {
    if requote then Requoted(u, e) else u
  }

  /** Where the parts of a finished option are, and what setting they make. */
  lemma FinishedSetting(s: Str, start: nat, p: nat, m: Machine) returns (a: nat, e: nat)
    requires Tracks(s, start, p, m) && !m.quoted && (m.mode == InParam || m.mode == InValue)
    ensures m.param == m.modname + a + 1 && (m.mode == InValue ==> m.value == m.modname + e + 1)
    ensures m.mode == InParam ==> !Opened(s, start, p) && PhaseOf(Behind(s, start, p)) == Param(a)
    ensures m.mode == InValue ==> PhaseOf(Behind(s, start, p)) == Valued(a, e)
    ensures var w := Settled(Behind(s, start, p), Opened(s, start, p), e);
            a < |w| && Setting(s[start..p]) == Some((w[..a], w[a + 1..]))
  {
    var u, t := Behind(s, start, p), s[start..p];
    Unlock(u, Base(s, start, p), m);
    a, e := m.param - m.modname - 1, if m.mode == InValue then m.value - m.modname - 1 else 0;
    if m.mode == InParam {
      ParamNotOpened(s, start, p, m);
    }
    if Opened(s, start, p) {
      assert t[0] == QUOTE && t[1..] == u;
      OpenedSetting(t, u, a, e);
    } else {
      assert t == u && (t != [] ==> t[0] == s[start]);
      PlainOption(t, a, e);
    }
  }

  lemma {:induction false} OpenedSetting(t: Str, u: Str, a: nat, e: nat)
    requires t != [] && t[0] == QUOTE && t[1..] == u && PhaseOf(u) == Valued(a, e)
    ensures a < |Requoted(u, e)| && Setting(t) == Some((Requoted(u, e)[..a], Requoted(u, e)[a + 1..]))
  {
    SettingOpened(t, u, a, e);
    RequotedParts(u, a, e);
  }

  lemma RequotedParts(u: Str, a: nat, e: nat)
    requires a < e < |u|
    ensures Requoted(u, e)[..a] == u[..a] && Requoted(u, e)[a + 1..] == u[a + 1..e + 1] + [QUOTE] + u[e + 1..]
  {
  }

  lemma PlainOption(t: Str, a: nat, e: nat)
    requires (t == [] || t[0] != QUOTE) && (PhaseOf(t) == Param(a) || PhaseOf(t) == Valued(a, e))
    ensures a < |t| && Setting(t) == Some((t[..a], t[a + 1..]))
  {
  }

  /** In a setting that starts with the blacklist's name, that name ends with the first equals sign. */
  lemma BlacklistName(x: Str, n: nat)
    requires n <= |x| && (forall k :: 0 <= k < n ==> x[k] != EQUALS) && (n < |x| ==> x[n] == EQUALS)
    ensures BLACKLIST <= x ==> n + 1 == |BLACKLIST| && n < |x|
  {
    if BLACKLIST <= x {
      assert x[9] == BLACKLIST[9] == EQUALS;
      assert forall k :: 0 <= k < 9 ==> x[k] == BLACKLIST[k];
    }
  }

  lemma BlacklistInParam(u: Str, a: nat)
    requires PhaseOf(u) == Param(a)
    ensures !(BLACKLIST <= u[a + 1..])
  {
    BlacklistName(u[a + 1..], |u| - a - 1);
  }

  lemma BlacklistInValue(u: Str, a: nat, e: nat, w: Str)
    requires PhaseOf(u) == Valued(a, e) && (w == u || w == Requoted(u, e))
    ensures a < e < |w| && (BLACKLIST <= w[a + 1..] ==> e == a + |BLACKLIST|)
  {
    var x := w[a + 1..];
    forall k | 0 <= k <= e - a - 1 ensures x[k] == u[a + 1 + k] {
    }
    BlacklistName(x, e - a - 1);
  }

  /** The end of an option outside quotes: its strings are cut out, re-quoted if need be, and their effects returned. */
  method Complete(buf: array<Byte>, p: nat, m: Machine, ghost s: Str, ghost start: nat) returns (effects: seq<Effect>)
    requires Tracks(s, start, p, m) && Intact(buf[..], s, start, p, m) && IsCString(s)
    requires !m.quoted && (m.mode == InParam || m.mode == InValue)
    modifies buf
    ensures effects == OptionEffects(s[start..p])
    ensures forall k :: p < k < buf.Length ==> buf[k] == old(buf[k])
  {
    ghost var u := Behind(s, start, p);
    ghost var a, e := FinishedSetting(s, start, p, m);
    IntactCut(buf[..], s, start, p, m, a);
    buf[p] := 0;
    if m.quoteStart.Some? && m.quoteStart.value < m.modname {
      effects := CompleteQuoted(buf, m.quoteStart.value, m, u, a, e);
    } else {
      effects := CompletePlain(buf, m, u, a, e);
    }
  }

  /** ... without a quote before it. */
  method CompletePlain(buf: array<Byte>, m: Machine, ghost u: Str, ghost a: nat, ghost e: nat)
    returns (effects: seq<Effect>)
    requires m.param == m.modname + a + 1 && CutAt(buf[..], m.modname, u, a)
    requires m.mode == InParam ==> PhaseOf(u) == Param(a)
    requires m.mode == InValue ==> m.value == m.modname + e + 1 && PhaseOf(u) == Valued(a, e)
    requires m.mode == InParam || m.mode == InValue
    ensures effects == Effects(u[..a], u[a + 1..])
  {
    if m.mode == InValue {
      BlacklistInValue(u, a, e, u);
    } else {
      BlacklistInParam(u, a);
    }
    effects := ReadResult(buf, m.mode == InValue, m.modname, m.param, m.value, u, a);
  }

  /** ... when a quote stands before it: there and up to the value the option moves one place down. */
  method CompleteQuoted(buf: array<Byte>, at: nat, m: Machine, ghost u: Str, ghost a: nat, ghost e: nat)
    returns (effects: seq<Effect>)
    requires m.modname == at + 1 && m.param == m.modname + a + 1 && m.value == m.modname + e + 1
    requires PhaseOf(u) == Valued(a, e) && CutAt(buf[..], m.modname, u, a)
    modifies buf
    ensures effects == Effects(Requoted(u, e)[..a], Requoted(u, e)[a + 1..])
    ensures forall k :: m.value <= k < buf.Length ==> buf[k] == old(buf[k])
  {
    RequoteOption(buf, at, m.value - m.modname, u, a, e);
    BlacklistInValue(u, a, e, Requoted(u, e));
    effects := ReadResult(buf, true, m.modname - 1, m.param - 1, m.value - 1, Requoted(u, e), a);
  }

  method RequoteOption(buf: array<Byte>, at: nat, n: nat, ghost u: Str, ghost a: nat, ghost e: nat)
    requires a < e < |u| && n == e + 1 && CutAt(buf[..], at + 1, u, a)
    modifies buf
    ensures CutAt(buf[..], at, Requoted(u, e), a)
    ensures forall k :: at + n < k < buf.Length ==> buf[k] == old(buf[k])
  {
    ghost var before := buf[..];
    Requote(buf, at, n);
    RequoteCut(before, buf[..], at, u, a, e);
  }

  /** Read the strings that the variables point to. */
  method ReadResult(buf: array<Byte>, hasValue: bool, modname: nat, param: nat, value: nat, ghost w: Str, ghost a: nat)
    returns (effects: seq<Effect>)
    requires CutAt(buf[..], modname, w, a) && param == modname + a + 1
    requires hasValue ==> a < value - modname <= |w|
    requires BLACKLIST <= w[a + 1..] ==> hasValue && value - param == |BLACKLIST|
    ensures effects == Effects(w[..a], w[a + 1..])
  {
    CutStrings(buf[..], modname, w, a, a + 1);
    var name := StringAt(buf, modname, w[..a]);
    var setting := StringAt(buf, param, w[a + 1..]);
    var text: Str := [];
    if hasValue {
      CutStrings(buf[..], modname, w, a, value - modname);
      text := StringAt(buf, value, w[value - modname..]);
      assert w[value - modname..] == w[a + 1..][value - param..];
    }
    effects := ParseResult(name, setting, text);
  }

  // ----- the loop

  /** The buffers on which the variables mean what they say. */
  ghost function Buffers(s: Str, start: nat, p: nat, m: Machine): iset<seq<Byte>> {
    iset b: seq<Byte> | forall k :: Asked(k) ==> InOption(b, s, start, p, m)
  }

  /** The cursor has not passed the end of the option. */
  ghost predicate InOption(b: seq<Byte>, s: Str, start: nat, p: nat, m: Machine) {
    Tracks(s, start, p, m) && Intact(b, s, start, p, m) && p <= OptionEnd(s, start, start)
  }

  lemma IsBuffer(b: seq<Byte>, s: Str, start: nat, p: nat, m: Machine)
    ensures b in Buffers(s, start, p, m) <==> InOption(b, s, start, p, m)
  {
    if b in Buffers(s, start, p, m) {
      assert Asked(0);
    }
  }

  /** What is left to read. */
  lemma OptionsNext(s: Str, start: nat, p: nat, done: seq<Str>)
    requires start <= |s| && p == OptionEnd(s, start, start)
    ensures p < |s| ==> done + OptionsFrom(s, start) == done + [s[start..p]] + OptionsFrom(s, p + 1)
    ensures p == |s| && !Quoted(s, start, p) ==> done + OptionsFrom(s, start) == done + [s[start..p]]
    ensures p == |s| && Quoted(s, start, p) ==> done + OptionsFrom(s, start) == done
  {
  }

  lemma InsideOption(s: Str, start: nat, p: nat)
    requires start <= p < |s| && p <= OptionEnd(s, start, start) && (s[p] in SPACES ==> Quoted(s, start, p))
    ensures p + 1 <= OptionEnd(s, start, start)
  {
  }

  lemma AtOptionEnd(s: Str, start: nat, p: nat)
    requires start <= p <= |s| && p <= OptionEnd(s, start, start)
    requires p == |s| || (s[p] in SPACES && !Quoted(s, start, p))
    ensures p == OptionEnd(s, start, start)
  {
  }

  lemma NoEffects(s: Str, start: nat, p: nat, m: Machine)
    requires Tracks(s, start, p, m) && (m.mode == InModname || m.mode == Ignoring)
    ensures OptionEffects(s[start..p]) == []
  {
    var u, t := Behind(s, start, p), s[start..p];
    Unlock(u, Base(s, start, p), m);
    if Opened(s, start, p) {
      assert t[0] == QUOTE && t[1..] == u;
    } else {
      assert t == u && (t != [] ==> t[0] == s[start]);
    }
  }

  lemma Ahead(b: seq<Byte>, s: Str, start: nat, p: nat, m: Machine)
    requires b in Buffers(s, start, p, m) && IsCString(s)
    ensures start <= p <= |s| < |b| && (b[p] == 0 <==> p == |s|) && (p < |s| ==> b[p] == s[p])
    ensures m.quoted == Quoted(s, start, p) && p <= OptionEnd(s, start, start)
  {
    IsBuffer(b, s, start, p, m);
  }

  /** A separator or the end outside quotes: the effects of the option that ends there, and the next one's start. */
  method AtEnd(buf: array<Byte>, p: nat, m: Machine, ghost s: Str, ghost start: nat)
    returns (effects: seq<Effect>, next: Machine)
    requires start <= p <= |s| && buf[..] in Buffers(s, start, p, m) && IsCString(s) && !m.quoted
    modifies buf
    ensures effects == OptionEffects(s[start..p])
    ensures p < |s| ==> buf[..] in Buffers(s, p + 1, p + 1, next)
  {
    IsBuffer(buf[..], s, start, p, m);
    ghost var before := buf[..];
    if m.mode == InValue || m.mode == InParam {
      effects := Complete(buf, p, m, s, start);
    } else {
      NoEffects(s, start, p, m);
      effects := [];
    }
    next := Restart(m, p + 1);
    NextStart(before, buf[..], s, start, p, m);
  }

  /** What is ahead of the cursor is still as it was. */
  lemma NextStart(before: seq<Byte>, b: seq<Byte>, s: Str, start: nat, p: nat, m: Machine)
    requires p <= |s| && Intact(before, s, start, p, m) && |b| == |before|
    requires forall k :: p < k < |b| ==> b[k] == before[k]
    ensures p < |s| ==> b in Buffers(s, p + 1, p + 1, Restart(m, p + 1))
  {
    if p < |s| {
      Fresh(b, s, p + 1, m);
      IsBuffer(b, s, p + 1, p + 1, Restart(m, p + 1));
    }
  }

  /** kmod_config_parse_kcmdline, on a buffer that holds the string `s` and its terminator */
  method ParseKcmdline(buf: array<Byte>, ghost s: Str) returns (out: seq<Effect>)
    requires |s| < buf.Length && buf[..|s|] == s && buf[|s|] == 0 && IsCString(s)
    modifies buf
    ensures out == AllEffects(OptionsFrom(s, 0))
  {
    var m := Machine(InModname, false, None, 0, 0, 0);
    assert forall k :: 0 <= k < |s| ==> buf[k] == buf[..|s|][k];
    Fresh(buf[..], s, 0, m);
    IsBuffer(buf[..], s, 0, 0, m);
    out := Rounds(buf, m, s);
    IsOut(OptionsFrom(s, 0), out);
  }

  method Rounds(buf: array<Byte>, start: Machine, ghost s: Str) returns (out: seq<Effect>)
    requires buf[..] in Buffers(s, 0, 0, start) && IsCString(s)
    modifies buf
    ensures out in Outs(OptionsFrom(s, 0))
  {
    var p: nat, iter, m := 0, true, start;
    ghost var from: nat, done: seq<Str> := 0, [];
    out := [];
    IsOut(done, out);
    ghost var goal := OptionsFrom(s, 0);
    ghost var rest := goal;
    IsRest(s, 0, rest);
    while iter
      invariant out in Outs(done) && (iter ==> buf[..] in Buffers(s, from, p, m) && rest in Rest(s, from) && p <= |s|)
      invariant goal == if iter then done + rest else done
      decreases iter, |s| - p
    {
      iter, m, out, from, done, rest := Round(buf, p, m, out, s, from, done, rest);
      p := p + 1;
    }
  }

  /** The options still to be read. */
  ghost function Rest(s: Str, from: nat): iset<seq<Str>> {
    iset rest: seq<Str> | forall k :: Asked(k) ==> IsTail(s, from, rest)
  }

  ghost predicate IsTail(s: Str, from: nat, rest: seq<Str>) {
    from <= |s| && rest == OptionsFrom(s, from)
  }

  lemma IsRest(s: Str, from: nat, rest: seq<Str>)
    ensures rest in Rest(s, from) <==> IsTail(s, from, rest)
  {
    if rest in Rest(s, from) {
      assert Asked(0);
    }
  }

  /** The effects of the options read so far. */
  ghost function Outs(done: seq<Str>): iset<seq<Effect>> {
    iset out: seq<Effect> | forall k :: Asked(k) ==> Yields(done, out)
  }

  ghost predicate Yields(done: seq<Str>, out: seq<Effect>) {
    out == AllEffects(done)
  }

  lemma IsOut(done: seq<Str>, out: seq<Effect>)
    ensures out in Outs(done) <==> out == AllEffects(done)
  {
    if out in Outs(done) {
      assert Asked(0);
    }
  }

  lemma OutNext(done: seq<Str>, out: seq<Effect>, t: Str, effects: seq<Effect>)
    requires out in Outs(done) && effects == OptionEffects(t)
    ensures out + effects in Outs(done + [t])
  {
    IsOut(done, out);
    AllEffectsNext(done, t);
    IsOut(done + [t], out + effects);
  }

  /** One character. */
  method Round(buf: array<Byte>, p: nat, m: Machine, out: seq<Effect>,
               ghost s: Str, ghost start: nat, ghost done: seq<Str>, ghost rest: seq<Str>)
    returns (iter: bool, next: Machine, out': seq<Effect>,
             ghost start': nat, ghost done': seq<Str>, ghost rest': seq<Str>)
    requires p <= |s| && buf[..] in Buffers(s, start, p, m) && IsCString(s)
    requires out in Outs(done) && rest in Rest(s, start)
    modifies buf
    ensures out' in Outs(done')
    ensures iter ==> p < |s| && buf[..] in Buffers(s, start', p + 1, next) && rest' in Rest(s, start')
    ensures done + rest == if iter then done' + rest' else done'
  {
    Ahead(buf[..], s, start, p, m);
    var c := buf[p];
    if c != 0 && (c !in SPACES || m.quoted) {
      next := Inside(buf, p, m, c, s, start);
      iter, out', start', done', rest' := true, out, start, done, rest;
    } else {
      AtOptionEnd(s, start, p);
      out', next, done', rest' := EndOption(buf, p, m, out, s, start, done, rest);
      iter, start' := c != 0, p + 1;
    }
  }

  /** The end of an option or of the whole line; there, an open quote drops the option. */
  method EndOption(buf: array<Byte>, p: nat, m: Machine, out: seq<Effect>,
                   ghost s: Str, ghost start: nat, ghost done: seq<Str>, ghost rest: seq<Str>)
    returns (out': seq<Effect>, next: Machine, ghost done': seq<Str>, ghost rest': seq<Str>)
    requires start <= p <= |s| && p == OptionEnd(s, start, start) && buf[..] in Buffers(s, start, p, m) && IsCString(s)
    requires out in Outs(done) && rest in Rest(s, start)
    modifies buf
    ensures out' in Outs(done')
    ensures p < |s| ==> buf[..] in Buffers(s, p + 1, p + 1, next) && rest' in Rest(s, p + 1)
    ensures done + rest == if p < |s| then done' + rest' else done'
  {
    Ahead(buf[..], s, start, p, m);
    rest' := RestNext(s, start, p, done, rest);
    out', next, done' := out, m, done;
    if !m.quoted {
      var effects;
      effects, next := AtEnd(buf, p, m, s, start);
      OutNext(done, out, s[start..p], effects);
      out' := out + effects;
      done' := done + [s[start..p]];
    }
  }

  lemma RestNext(s: Str, start: nat, p: nat, done: seq<Str>, rest: seq<Str>) returns (next: seq<Str>)
    requires start <= |s| && p == OptionEnd(s, start, start) && rest in Rest(s, start)
    ensures p < |s| ==> next in Rest(s, p + 1) && done + rest == done + [s[start..p]] + next
    ensures p == |s| ==> done + rest == if Quoted(s, start, p) then done else done + [s[start..p]]
  {
    IsRest(s, start, rest);
    OptionsNext(s, start, p, done);
    next := if p < |s| then OptionsFrom(s, p + 1) else [];
    IsRest(s, p + 1, next);
  }

  /** One character that does not end an option. */
  method Inside(buf: array<Byte>, p: nat, m: Machine, c: Byte, ghost s: Str, ghost start: nat) returns (next: Machine)
    requires p < |s| && c == s[p] && (c in SPACES ==> m.quoted) && buf[..] in Buffers(s, start, p, m)
    modifies buf
    ensures buf[..] in Buffers(s, start, p + 1, next)
  {
    IsBuffer(buf[..], s, start, p, m);
    TakeTracks(s, start, p, m);
    TakeIntact(buf[..], s, start, p, m);
    InsideOption(s, start, p);
    next := Take(m, p, c);
    if Cuts(m, c) {
      buf[p] := 0;
    }
    IsBuffer(buf[..], s, start, p + 1, next);
  }
}
