/**
 Module options on the kernel command line: options are separated by white space outside quotes, and an option
 mod.param or mod.param=value sets a parameter. Quotes belong into the value; boot loaders that put them around
 the whole option are understood as well.
 */
module KcmdlineSpec {
  import opened Text
  import opened Tokens

  const SPECIAL: set<Byte> := {32, 9, 10, 11, 12, 13, 34, 46, 61}

  /** How far an option without its opening quote has got: the positions of the dot and the equals sign. */
  datatype Phase = Naming | Param(dot: nat) | Valued(dot: nat, eq: nat) | Dead

  /** The first special character has to be a dot, the second, if there is one, an equals sign. */
  function PhaseOf(u: Str): (ph: Phase)
    ensures ph.Param? ==> ph.dot < |u| && u[ph.dot] == DOT
    ensures ph.Valued? ==> ph.dot < ph.eq < |u| && u[ph.dot] == DOT && u[ph.eq] == EQUALS
  {
    var a := TokenEnd(u, 0, SPECIAL);
    if a == |u| then Naming
    else if u[a] != DOT then Dead
    else
      var b := TokenEnd(u, a + 1, SPECIAL);
      if b == |u| then Param(a)
      else if u[b] != EQUALS then Dead
      else Valued(a, b)
  }

  /** The same, one character at a time. */
  function Advance(ph: Phase, n: nat, c: Byte): Phase {
    match ph
    case Naming => if c !in SPECIAL then Naming else if c == DOT then Param(n) else Dead
    case Param(a) => if c !in SPECIAL then Param(a) else if c == EQUALS then Valued(a, n) else Dead
    case Valued(a, b) => ph
    case Dead => Dead
  }

  lemma EndNext(u: Str, c: Byte, i: nat)
    requires i <= |u|
    ensures var e := TokenEnd(u, i, SPECIAL);
            TokenEnd(u + [c], i, SPECIAL) == if e < |u| || c in SPECIAL then e else |u| + 1
  {
    var e := TokenEnd(u, i, SPECIAL);
    EndUnique(u + [c], i, SPECIAL, if e < |u| || c in SPECIAL then e else |u| + 1);
  }

  lemma PhaseNext(u: Str, c: Byte)
    ensures PhaseOf(u + [c]) == Advance(PhaseOf(u), |u|, c)
  {
    if TokenEnd(u, 0, SPECIAL) < |u| {
      PhaseNextDot(u, c);
    } else {
      PhaseNextName(u, c);
    }
  }

  lemma {:induction false} PhaseNextDot(u: Str, c: Byte)
    requires TokenEnd(u, 0, SPECIAL) < |u|
    ensures PhaseOf(u + [c]) == Advance(PhaseOf(u), |u|, c)
  {
    EndNext(u, c, 0);
    EndNext(u, c, TokenEnd(u, 0, SPECIAL) + 1);
  }

  lemma {:induction false} PhaseNextName(u: Str, c: Byte)
    requires TokenEnd(u, 0, SPECIAL) == |u|
    ensures PhaseOf(u + [c]) == Advance(PhaseOf(u), |u|, c)
  {
    EndNext(u, c, 0);
    if c in SPECIAL {
      EndUnique(u + [c], |u| + 1, SPECIAL, |u| + 1);
    }
  }

  /** No quote before the value. */
  lemma QuoteFree(u: Str)
    requires PhaseOf(u).Naming? || PhaseOf(u).Param?
    ensures QUOTE !in u
  {
    var a := TokenEnd(u, 0, SPECIAL);
    assert forall i :: 0 <= i < a ==> u[i] != QUOTE;
  }

  /** The module and the setting of an option: an option in quotes has its opening quote moved to the value. */
  function Setting(t: Str): Option<(Str, Str)> {
    if t != [] && t[0] == QUOTE then SettingIn(t[1..], PhaseOf(t[1..]), true) else SettingIn(t, PhaseOf(t), false)
  }

  /** ... from the option without its opening quote and how far it has got. */
  function SettingIn(u: Str, ph: Phase, quoted: bool): Option<(Str, Str)>
    requires ph.Param? ==> ph.dot < |u|
    requires ph.Valued? ==> ph.dot < ph.eq < |u|
  {
    match ph
    case Param(a) => if quoted then None else Some((u[..a], u[a + 1..]))
    case Valued(a, b) =>
      Some((u[..a], if quoted then u[a + 1..b + 1] + [QUOTE] + u[b + 1..] else u[a + 1..]))
    case _ => None
  }

  /** An option in quotes that has a value. */
  lemma {:induction false} SettingOpened(t: Str, u: Str, a: nat, b: nat)
    requires t != [] && t[0] == QUOTE && t[1..] == u && PhaseOf(u) == Valued(a, b)
    ensures Setting(t) == Some((u[..a], u[a + 1..b + 1] + [QUOTE] + u[b + 1..]))
  {
  }

  // ----- effects

  datatype Effect = Blacklist(name: Str) | Options(modname: Str, text: Str)

  /** strsep on commas: the pieces between them, empty ones included */
  function Pieces(s: Str, i: nat): seq<Str>
    requires i <= |s|
    decreases |s| - i
  {
    var e := TokenEnd(s, i, {COMMA});
    if e == |s| then [s[i..]] else [s[i..e]] + Pieces(s, e + 1)
  }

  /** underscores: dashes become underscores except in brackets, which have to match */
  function Underscores(s: Str): Option<Str>
    decreases |s|
  {
    if s == [] then Some([])
    else if s[0] == CLOSE then None
    else if s[0] == OPEN then
      var e := TokenEnd(s, 0, {CLOSE});
      if e == |s| then None
      else
        var rest := Underscores(s[e + 1..]);
        if rest.None? then None else Some(s[..e + 1] + rest.value)
    else
      var rest := Underscores(s[1..]);
      if rest.None? then None else Some([if s[0] == DASH then UNDERSCORE else s[0]] + rest.value)
  }

  function TabsToSpaces(s: Str): (r: Str)
    ensures |r| == |s|
  {
    if s == [] then [] else [if s[0] == TAB then SPACE else s[0]] + TabsToSpaces(s[1..])
  }

  /** The bytes of "modprobe" and of "blacklist=". */
  const MODPROBE: Str := [109, 111, 100, 112, 114, 111, 98, 101]
  const BLACKLIST: Str := [98, 108, 97, 99, 107, 108, 105, 115, 116, 61]

  function Blacklists(names: seq<Str>): seq<Effect> {
    if names == [] then [] else Blacklists(names[..|names| - 1]) + [Blacklist(names[|names| - 1])]
  }

  /** What one setting does to the configuration. */
  function Effects(modname: Str, setting: Str): seq<Effect> {
    if modname == MODPROBE && BLACKLIST <= setting then Blacklists(Pieces(setting[|BLACKLIST|..], 0))
    else
      match Underscores(modname)
      case None => []
      case Some(name) => [Options(name, TabsToSpaces(setting))]
  }

  function OptionEffects(t: Str): seq<Effect> {
    match Setting(t)
    case None => []
    case Some((modname, setting)) => Effects(modname, setting)
  }

  // ----- the command line

  /** Whether position `j` is inside quotes, reading from outside quotes at `i`. */
  function Quoted(s: Str, i: nat, j: nat): bool
    requires i <= j <= |s|
  {
    j > i && ((s[j - 1] == QUOTE) != Quoted(s, i, j - 1))
  }

  /** The next white space outside quotes from `j` on, for an option that starts at `i`. */
  function OptionEnd(s: Str, i: nat, j: nat): (e: nat)
    requires i <= j <= |s|
    ensures j <= e <= |s|
    ensures e < |s| ==> s[e] in SPACES && !Quoted(s, i, e)
    ensures forall k :: j <= k < e ==> s[k] !in SPACES || Quoted(s, i, k)
    decreases |s| - j
  {
    if j == |s| || (s[j] in SPACES && !Quoted(s, i, j)) then j else OptionEnd(s, i, j + 1)
  }

  /** The options from position `i` on; one whose quotes are not closed is dropped. */
  function OptionsFrom(s: Str, i: nat): seq<Str>
    requires i <= |s|
    decreases |s| - i
  {
    var e := OptionEnd(s, i, i);
    if e == |s| then if Quoted(s, i, e) then [] else [s[i..e]]
    else [s[i..e]] + OptionsFrom(s, e + 1)
  }

  function AllEffects(options: seq<Str>): seq<Effect> {
    FlatMap(OptionEffects, options)
  }

  lemma AllEffectsAppend(a: seq<Str>, b: seq<Str>)
    ensures AllEffects(a + b) == AllEffects(a) + AllEffects(b)
  {
    FlatMapAppend(OptionEffects, a, b);
  }

  lemma AllEffectsNext(options: seq<Str>, t: Str)
    ensures AllEffects(options + [t]) == AllEffects(options) + OptionEffects(t)
  {
    assert (options + [t])[..|options|] == options;
  }

  // ----- quotes around the option and quotes around the value

  predicate NoSpecial(s: Str) {
    forall i :: 0 <= i < |s| ==> s[i] !in SPECIAL
  }

  /** An option mod.param=value. */
  function Assign(modname: Str, param: Str, value: Str): Str {
    modname + [DOT] + param + [EQUALS] + value
  }

  lemma AssignPhase(modname: Str, param: Str, value: Str)
    requires NoSpecial(modname) && NoSpecial(param)
    ensures PhaseOf(Assign(modname, param, value)) == Valued(|modname|, |modname| + 1 + |param|)
  {
    var u := Assign(modname, param, value);
    var a, b := |modname|, |modname| + 1 + |param|;
    assert u[a] == DOT && u[b] == EQUALS;
    forall k | 0 <= k < a ensures u[k] !in SPECIAL {
      assert u[k] == modname[k];
    }
    forall k | a + 1 <= k < b ensures u[k] !in SPECIAL {
      assert u[k] == param[k - a - 1];
    }
    EndUnique(u, 0, SPECIAL, a);
    EndUnique(u, a + 1, SPECIAL, b);
  }

  lemma AssignParts(modname: Str, param: Str, value: Str)
    ensures var u := Assign(modname, param, value);
            var a, b := |modname|, |modname| + 1 + |param|;
            u[..a] == modname && u[a + 1..b + 1] == param + [EQUALS] && u[b + 1..] == value
            && u[a + 1..] == param + [EQUALS] + value
  {
  }

  lemma PlainSetting(modname: Str, param: Str, value: Str)
    requires NoSpecial(modname) && NoSpecial(param)
    ensures Setting(Assign(modname, param, value)) == Some((modname, param + [EQUALS] + value))
  {
    var u := Assign(modname, param, value);
    AssignPhase(modname, param, value);
    AssignParts(modname, param, value);
    assert u[0] != QUOTE by {
      assert u[0] == if modname != [] then modname[0] else DOT;
    }
  }

  lemma {:induction false} QuotedSetting(modname: Str, param: Str, value: Str)
    requires NoSpecial(modname) && NoSpecial(param)
    ensures Setting([QUOTE] + Assign(modname, param, value)) == Some((modname, param + [EQUALS] + [QUOTE] + value))
  {
    var u := Assign(modname, param, value);
    AssignPhase(modname, param, value);
    AssignParts(modname, param, value);
    SettingOpened([QUOTE] + u, u, |modname|, |modname| + 1 + |param|);
  }

  /** The option with quotes around it, as some boot loaders pass it. */
  function QuotedOption(modname: Str, param: Str, text: Str): Str {
    [QUOTE] + Assign(modname, param, text + [QUOTE])
  }

  /** The option with quotes around its value. */
  function QuotedValue(modname: Str, param: Str, text: Str): Str {
    Assign(modname, param, [QUOTE] + text + [QUOTE])
  }

  /** Both spellings set the same parameter to the same quoted text. */
  lemma SameSetting(modname: Str, param: Str, text: Str)
    requires NoSpecial(modname) && NoSpecial(param)
    ensures Setting(QuotedOption(modname, param, text)) == Setting(QuotedValue(modname, param, text))
         == Some((modname, param + [EQUALS] + ([QUOTE] + text + [QUOTE])))
  {
    PlainSetting(modname, param, [QUOTE] + text + [QUOTE]);
    QuotedSetting(modname, param, text + [QUOTE]);
    Associate(param + [EQUALS], [QUOTE], text, [QUOTE]);
  }

  lemma Associate(a: Str, b: Str, c: Str, d: Str)
    ensures a + b + (c + d) == a + (b + c + d)
  {
  }

  // ----- an option within a command line

  /** A whole option: white space only in quotes, and the quotes closed. */
  predicate IsOption(t: Str) {
    OptionEnd(t, 0, 0) == |t| && !Quoted(t, 0, |t|)
  }

  lemma {:induction false} QuotedShift(front: Str, t: Str, rest: Str, j: nat)
    requires j <= |t|
    ensures Quoted(front + t + rest, |front|, |front| + j) == Quoted(t, 0, j)
  {
    if j > 0 {
      assert (front + t + rest)[|front| + j - 1] == t[j - 1];
      QuotedShift(front, t, rest, j - 1);
    }
  }

  lemma OptionEndUnique(s: Str, i: nat, e: nat)
    requires i <= e <= |s| && (e < |s| ==> s[e] in SPACES && !Quoted(s, i, e))
    requires forall k :: i <= k < e ==> s[k] !in SPACES || Quoted(s, i, k)
    ensures OptionEnd(s, i, i) == e
  {
  }

  /** An option followed by white space or the end is taken as a whole. */
  lemma OptionTaken(front: Str, t: Str, rest: Str, s: Str, at: nat, e: nat)
    requires IsOption(t) && (rest != [] ==> rest[0] in SPACES)
    requires s == front + t + rest && at == |front| && e == at + |t|
    ensures OptionEnd(s, at, at) == e && !Quoted(s, at, e)
  {
    forall k | at <= k < e ensures s[k] !in SPACES || Quoted(s, at, k) {
      OptionChar(front, t, rest, s, k - at, k);
    }
    QuotedShift(front, t, rest, |t|);
    OptionEndUnique(s, at, e);
  }

  lemma {:induction false} OptionChar(front: Str, t: Str, rest: Str, s: Str, j: nat, k: nat)
    requires IsOption(t) && s == front + t + rest && j < |t| && k == |front| + j
    ensures s[k] !in SPACES || Quoted(s, |front|, k)
  {
    QuotedShift(front, t, rest, j);
    assert s[k] == t[j];
  }

  /** What was before does not matter. */
  lemma {:induction false} OptionsShift(front: Str, x: Str, i: nat, s: Str, k: nat)
    requires i <= |x| && s == front + x && k == |front| + i
    ensures OptionsFrom(s, k) == OptionsFrom(x, i)
    decreases |x| - i
  {
    var e := OptionEnd(x, i, i);
    var f := |front| + e;
    OptionEndShift(front, x, i, e, s, k, f);
    SliceShift(front, x, i, e, s, k, f);
    if e < |x| {
      OptionsShift(front, x, e + 1, s, f + 1);
    }
  }

  lemma SliceShift(front: Str, x: Str, i: nat, e: nat, s: Str, k: nat, f: nat)
    requires i <= e <= |x| && s == front + x && k == |front| + i && f == |front| + e
    ensures s[k..f] == x[i..e]
  {
  }

  lemma {:induction false} OptionEndShift(front: Str, x: Str, i: nat, e: nat, s: Str, k: nat, f: nat)
    requires i <= |x| && e == OptionEnd(x, i, i) && s == front + x && k == |front| + i && f == |front| + e
    ensures OptionEnd(s, k, k) == f && Quoted(s, k, f) == Quoted(x, i, e)
  {
    forall j | k <= j < f ensures s[j] !in SPACES || Quoted(s, k, j) {
      QuotedMoved(front, x, i, j - |front|);
      assert s[j] == x[j - |front|];
    }
    QuotedMoved(front, x, i, e);
    OptionEndUnique(s, k, f);
  }

  lemma {:induction false} QuotedMoved(front: Str, x: Str, i: nat, j: nat)
    requires i <= j <= |x|
    ensures Quoted(front + x, |front| + i, |front| + j) == Quoted(x, i, j)
    decreases j
  {
    if j > i {
      assert (front + x)[|front| + j - 1] == x[j - 1];
      QuotedMoved(front, x, i, j - 1);
    }
  }

  lemma {:induction false} OptionFirst(front: Str, t: Str, rest: Str)
    requires IsOption(t) && (rest != [] ==> rest[0] in SPACES)
    ensures OptionsFrom(front + t + rest, |front|) == [t] + if rest == [] then [] else OptionsFrom(rest, 1)
  {
    if rest != [] {
      OptionBefore(front, t, rest, front + t + rest, |front|, |front| + |t|);
    } else {
      OptionAtEnd(front, t, rest, front + t + rest, |front|);
    }
  }

  lemma {:induction false} OptionBefore(front: Str, t: Str, rest: Str, s: Str, at: nat, e: nat)
    requires IsOption(t) && rest != [] && rest[0] in SPACES && s == front + t + rest && at == |front| && e == at + |t|
    ensures OptionsFrom(s, at) == [t] + OptionsFrom(rest, 1)
  {
    OptionTaken(front, t, rest, s, at, e);
    SliceOf(front, t, rest, s);
    OneOption(s, at, e, t);
    OptionsShift(front + t, rest, 1, s, e + 1);
  }

  lemma {:induction false} OptionAtEnd(front: Str, t: Str, rest: Str, s: Str, at: nat)
    requires IsOption(t) && rest == [] && s == front + t + rest && at == |front|
    ensures OptionsFrom(s, at) == [t] + []
  {
    OptionTaken(front, t, rest, s, at, at + |t|);
    SliceOf(front, t, rest, s);
    LastOption(s, at, t);
  }

  lemma SliceOf(front: Str, t: Str, rest: Str, s: Str)
    requires s == front + t + rest
    ensures s[|front|..|front| + |t|] == t && s == (front + t) + rest
  {
  }

  lemma {:induction false} LastOption(s: Str, i: nat, t: Str)
    requires i <= |s| && OptionEnd(s, i, i) == |s| && s[i..|s|] == t && !Quoted(s, i, |s|)
    ensures OptionsFrom(s, i) == [t]
  {
  }

  lemma {:induction false} OneOption(s: Str, i: nat, e: nat, t: Str)
    requires i <= e < |s| && OptionEnd(s, i, i) == e && s[i..e] == t
    ensures OptionsFrom(s, i) == [t] + OptionsFrom(s, e + 1)
  {
  }

  /** Between the quotes everything is quoted. */
  lemma {:induction false} InQuotes(t: Str, i: nat, j: nat)
    requires i < j <= |t| && !Quoted(t, 0, i) && t[i] == QUOTE && forall k :: i < k < j ==> t[k] != QUOTE
    ensures Quoted(t, 0, j)
    decreases j
  {
    if j > i + 1 {
      InQuotes(t, i, j - 1);
    }
  }

  lemma {:induction false} OutsideQuotes(t: Str, j: nat)
    requires j <= |t| && forall k :: 0 <= k < j ==> t[k] != QUOTE
    ensures !Quoted(t, 0, j)
  {
    if j > 0 {
      OutsideQuotes(t, j - 1);
    }
  }

  /** A quoted part at the end of a string without white space before it. */
  lemma QuotedEnd(t: Str, i: nat)
    requires i < |t| - 1 && t[i] == QUOTE && t[|t| - 1] == QUOTE
    requires forall k :: 0 <= k < |t| - 1 && k != i ==> t[k] != QUOTE
    requires forall k :: 0 <= k < i ==> t[k] !in SPACES
    ensures IsOption(t)
  {
    OutsideQuotes(t, i);
    forall k | 0 <= k < |t| ensures t[k] !in SPACES || Quoted(t, 0, k) {
      if k > i {
        InQuotes(t, i, k);
      }
    }
    InQuotes(t, i, |t| - 1);
    OptionEndUnique(t, 0, |t|);
  }

  lemma QuotedOptionIsOption(modname: Str, param: Str, text: Str)
    requires NoSpecial(modname) && NoSpecial(param) && QUOTE !in text
    ensures IsOption(QuotedOption(modname, param, text))
  {
    var t := QuotedOption(modname, param, text);
    var head := [QUOTE] + modname + [DOT] + param + [EQUALS];
    assert t == head + text + [QUOTE];
    forall k | 0 < k < |t| - 1 ensures t[k] != QUOTE {
      HeadChar(modname, param, k - 1);
      assert t[k] == if k < |head| then Assign(modname, param, [])[k - 1] else text[k - |head|];
    }
    QuotedEnd(t, 0);
  }

  lemma HeadChar(modname: Str, param: Str, k: nat)
    requires NoSpecial(modname) && NoSpecial(param)
    ensures k < |Assign(modname, param, [])| ==>
      Assign(modname, param, [])[k] != QUOTE && Assign(modname, param, [])[k] !in SPACES
  {
    var u := Assign(modname, param, []);
    if k < |u| {
      assert u[k] == if k < |modname| then modname[k] else if k == |modname| then DOT
                     else if k < |modname| + 1 + |param| then param[k - |modname| - 1] else EQUALS;
    }
  }

  lemma QuotedValueIsOption(modname: Str, param: Str, text: Str)
    requires NoSpecial(modname) && NoSpecial(param) && QUOTE !in text
    ensures IsOption(QuotedValue(modname, param, text))
  {
    var t := QuotedValue(modname, param, text);
    var head := Assign(modname, param, []);
    assert t == head + [QUOTE] + text + [QUOTE];
    forall k | 0 <= k < |head| ensures t[k] != QUOTE && t[k] !in SPACES {
      HeadChar(modname, param, k);
      assert t[k] == head[k];
    }
    forall k | |head| < k < |t| - 1 ensures t[k] != QUOTE {
      assert t[k] == text[k - |head| - 1];
    }
    QuotedEnd(t, |head|);
  }

  /**
   For all quote-free text, wherever the option starts in the command line and whatever follows it, quotes around
   the whole option are read as quotes around its value: one option, with the same setting, and the rest as it is.
   */
  lemma SameReading(front: Str, modname: Str, param: Str, text: Str, rest: Str)
    requires NoSpecial(modname) && NoSpecial(param) && QUOTE !in text && (rest != [] ==> rest[0] in SPACES)
    ensures var others := if rest == [] then [] else OptionsFrom(rest, 1);
            var t, w := QuotedOption(modname, param, text), QuotedValue(modname, param, text);
            && OptionsFrom(front + t + rest, |front|) == [t] + others
            && OptionsFrom(front + w + rest, |front|) == [w] + others
            && Setting(t) == Setting(w) == Some((modname, param + [EQUALS] + ([QUOTE] + text + [QUOTE])))
  {
    QuotedOptionIsOption(modname, param, text);
    QuotedValueIsOption(modname, param, text);
    SameSetting(modname, param, text);
    OptionFirst(front, QuotedOption(modname, param, text), rest);
    OptionFirst(front, QuotedValue(modname, param, text), rest);
  }

  // ----- the whole command line

  /** Behind an option that has ended, quotes are counted anew. */
  lemma {:induction false} QuotedRestart(s: Str, i: nat, e: nat, j: nat)
    requires i <= e < j <= |s| && !Quoted(s, i, e) && s[e] != QUOTE
    ensures Quoted(s, i, j) == Quoted(s, e + 1, j)
    decreases j
  {
    if j > e + 1 {
      QuotedRestart(s, i, e, j - 1);
    }
  }

  lemma {:induction false} QuotedFront(head: Str, s: Str, i: nat, j: nat)
    requires i <= j <= |head| && head <= s
    ensures Quoted(s, i, j) == Quoted(head, i, j)
    decreases j
  {
    if j > i {
      QuotedFront(head, s, i, j - 1);
    }
  }

  /** A first part that ends in unquoted white space: its options do not depend on what follows. */
  lemma {:induction false} OptionsSplit(head: Str, s: Str, i: nat)
    requires i <= |head| < |s| && head <= s && s[|head|] in SPACES && !Quoted(head, i, |head|)
    ensures OptionsFrom(s, i) == OptionsFrom(head, i) + OptionsFrom(s, |head| + 1)
    decreases |head| - i
  {
    var t, e := FirstOfBoth(head, s, i);
    if e < |head| {
      OptionsSplit(head, s, e + 1);
      Regroup([t], OptionsFrom(head, e + 1), OptionsFrom(s, |head| + 1));
    }
  }

  lemma Regroup<T>(a: seq<T>, b: seq<T>, c: seq<T>)
    ensures a + b + c == a + (b + c)
  {
  }

  /** The next option is the same with and without what follows. */
  lemma {:induction false} FirstOfBoth(head: Str, s: Str, i: nat) returns (t: Str, e: nat)
    requires i <= |head| < |s| && head <= s && s[|head|] in SPACES && !Quoted(head, i, |head|)
    ensures i <= e <= |head| && OptionsFrom(s, i) == [t] + OptionsFrom(s, e + 1)
    ensures e == |head| ==> OptionsFrom(head, i) == [t]
    ensures e < |head| ==> OptionsFrom(head, i) == [t] + OptionsFrom(head, e + 1) && !Quoted(head, e + 1, |head|)
  {
    e := OptionEnd(head, i, i);
    t := s[i..e];
    FrontEnd(head, s, i, e);
    OneOption(s, i, e, t);
    SameSlice(head, s, i, e);
    if e < |head| {
      OneOption(head, i, e, t);
      QuotedRestart(head, i, e, |head|);
    } else {
      LastOption(head, i, t);
    }
  }

  lemma SameSlice(head: Str, s: Str, i: nat, e: nat)
    requires i <= e <= |head| && head <= s
    ensures s[i..e] == head[i..e]
  {
  }

  lemma FrontEnd(head: Str, s: Str, i: nat, e: nat)
    requires i <= |head| < |s| && head <= s && s[|head|] in SPACES && !Quoted(head, i, |head|)
    requires e == OptionEnd(head, i, i)
    ensures OptionEnd(s, i, i) == e
  {
    forall k | i <= k < e ensures s[k] !in SPACES || Quoted(s, i, k) {
      QuotedFront(head, s, i, k);
    }
    QuotedFront(head, s, i, e);
    OptionEndUnique(s, i, e);
  }

  /** An option may start behind `front`: it is empty, or ends in white space outside quotes. */
  predicate Separated(front: Str) {
    front != [] ==> front[|front| - 1] in SPACES && !Quoted(front, 0, |front| - 1)
  }

  /** The effects of what stands before. */
  function EffectsBefore(front: Str): seq<Effect> {
    if front == [] then [] else AllEffects(OptionsFrom(front[..|front| - 1], 0))
  }

  /** The effects of a line: those of its first part, then those of the options behind it. */
  lemma LineEffects(front: Str, s: Str)
    requires Separated(front) && front <= s
    ensures AllEffects(OptionsFrom(s, 0)) == EffectsBefore(front) + AllEffects(OptionsFrom(s, |front|))
  {
    if front != [] {
      var head := front[..|front| - 1];
      QuotedFront(head, front, 0, |head|);
      OptionsSplit(head, s, 0);
      AllEffectsAppend(OptionsFrom(head, 0), OptionsFrom(s, |front|));
    }
  }

  /** The command line as a whole has the same effects, whichever way one of its options is quoted. */
  lemma SameLine(front: Str, modname: Str, param: Str, text: Str, rest: Str)
    requires Separated(front)
    requires NoSpecial(modname) && NoSpecial(param) && QUOTE !in text && (rest != [] ==> rest[0] in SPACES)
    ensures AllEffects(OptionsFrom(front + QuotedOption(modname, param, text) + rest, 0))
         == AllEffects(OptionsFrom(front + QuotedValue(modname, param, text) + rest, 0))
  {
    var t, w := QuotedOption(modname, param, text), QuotedValue(modname, param, text);
    var others := if rest == [] then [] else OptionsFrom(rest, 1);
    SameReading(front, modname, param, text, rest);
    SameFirst(t, w, others);
    LineEffects(front, front + t + rest);
    LineEffects(front, front + w + rest);
  }

  lemma SameFirst(t: Str, w: Str, others: seq<Str>)
    requires Setting(t) == Setting(w)
    ensures AllEffects([t] + others) == AllEffects([w] + others)
  {
    AllEffectsAppend([t], others);
    AllEffectsAppend([w], others);
    assert [t] == [] + [t] && [w] == [] + [w];
    AllEffectsNext([], t);
    AllEffectsNext([], w);
  }
}
