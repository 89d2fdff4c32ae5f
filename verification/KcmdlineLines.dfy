/**
 What a command line says: it is written down word by word, and the parser takes from each word exactly the setting
 or the blacklisted names that were written.
 */
module KcmdlineLines {
  import opened Text
  import opened Tokens
  import opened KcmdlineSpec
  import Kcmdline

  // ----- names of modules

  /** Text without brackets, or text in brackets. */
  datatype Part = Outside(text: Str) | Bracketed(text: Str)

  /** A name whose brackets match, or one that goes on with an opening or a closing bracket too many. */
  datatype Name = Matched(parts: seq<Part>) | Opened(parts: seq<Part>, rest: Str) | Closed(parts: seq<Part>, rest: Str)

  function PartText(x: Part): Str {
    match x
    case Outside(text) => text
    case Bracketed(text) => [OPEN] + text + [CLOSE]
  }

  function PartsText(xs: seq<Part>): Str {
    if xs == [] then [] else PartText(xs[0]) + PartsText(xs[1..])
  }

  function NameText(n: Name): Str {
    match n
    case Matched(xs) => PartsText(xs)
    case Opened(xs, rest) => PartsText(xs) + [OPEN] + rest
    case Closed(xs, rest) => PartsText(xs) + [CLOSE] + rest
  }

  predicate ProperPart(x: Part) {
    CLOSE !in x.text && (x.Outside? ==> OPEN !in x.text)
  }

  predicate ProperParts(xs: seq<Part>) {
    forall i :: 0 <= i < |xs| ==> ProperPart(xs[i])
  }

  predicate ProperName(n: Name) {
    ProperParts(n.parts) && (n.Opened? ==> CLOSE !in n.rest)
  }

  /** One character in place of another. */
  function Replaced(s: Str, a: Byte, b: Byte): (r: Str) {
    seq(|s|, i requires 0 <= i < |s| => if s[i] == a then b else s[i])
  }

  function PartRenamed(x: Part): Str {
    match x
    case Outside(text) => Replaced(text, DASH, UNDERSCORE)
    case Bracketed(text) => PartText(x)
  }

  function PartsRenamed(xs: seq<Part>): Str {
    if xs == [] then [] else PartRenamed(xs[0]) + PartsRenamed(xs[1..])
  }

  function Behind(front: Str, r: Option<Str>): Option<Str> {
    match r
    case None => None
    case Some(x) => Some(front + x)
  }

  lemma BehindNothing(r: Option<Str>)
    ensures Behind([], r) == r
  {
    if r.Some? {
      assert [] + r.value == r.value;
    }
  }

  lemma BehindBoth(a: Str, b: Str, r: Option<Str>)
    ensures Behind(a, Behind(b, r)) == Behind(a + b, r)
  {
    if r.Some? {
      assert a + (b + r.value) == a + b + r.value;
    }
  }

  lemma {:induction false} OutsideUnderscores(text: Str, s: Str)
    requires OPEN !in text && CLOSE !in text
    ensures Underscores(text + s) == Behind(Replaced(text, DASH, UNDERSCORE), Underscores(s))
    decreases |text|
  {
    if text == [] {
      assert text + s == s;
      BehindNothing(Underscores(s));
    } else {
      assert text[0] in text;
      assert (text + s)[1..] == text[1..] + s;
      OutsideUnderscores(text[1..], s);
      var head: Str := [if text[0] == DASH then UNDERSCORE else text[0]];
      assert Replaced(text, DASH, UNDERSCORE) == head + Replaced(text[1..], DASH, UNDERSCORE);
      BehindBoth(head, Replaced(text[1..], DASH, UNDERSCORE), Underscores(s));
    }
  }

  lemma {:induction false} BracketedUnderscores(text: Str, s: Str)
    requires CLOSE !in text
    ensures Underscores([OPEN] + text + [CLOSE] + s) == Behind([OPEN] + text + [CLOSE], Underscores(s))
  {
    var u := [OPEN] + text + [CLOSE] + s;
    var e := |text| + 1;
    forall k | 0 <= k < e ensures u[k] !in {CLOSE} {
      assert k > 0 ==> u[k] == text[k - 1] && u[k] in text;
    }
    EndUnique(u, 0, {CLOSE}, e);
    assert u[e + 1..] == s && u[..e + 1] == [OPEN] + text + [CLOSE];
  }

  lemma {:induction false} PartUnderscores(x: Part, s: Str)
    requires ProperPart(x)
    ensures Underscores(PartText(x) + s) == Behind(PartRenamed(x), Underscores(s))
  {
    match x
    case Outside(text) => OutsideUnderscores(text, s);
    case Bracketed(text) => BracketedUnderscores(text, s);
  }

  /** Outside of brackets dashes become underscores; within them nothing changes. */
  lemma {:induction false} PartsUnderscores(xs: seq<Part>, s: Str)
    requires ProperParts(xs)
    ensures Underscores(PartsText(xs) + s) == Behind(PartsRenamed(xs), Underscores(s))
    decreases |xs|
  {
    if xs == [] {
      assert PartsText(xs) + s == s;
      BehindNothing(Underscores(s));
    } else {
      var rest := PartsText(xs[1..]) + s;
      assert PartsText(xs) + s == PartText(xs[0]) + rest;
      PartsUnderscores(xs[1..], s);
      PartUnderscores(xs[0], rest);
      BehindBoth(PartRenamed(xs[0]), PartsRenamed(xs[1..]), Underscores(s));
    }
  }

  lemma {:induction false} UnmatchedUnderscores(c: Byte, rest: Str)
    requires c == CLOSE || (c == OPEN && CLOSE !in rest)
    ensures Underscores([c] + rest) == None
  {
    var u := [c] + rest;
    if c == OPEN {
      forall k | 0 <= k < |u| ensures u[k] !in {CLOSE} {
        assert k > 0 ==> u[k] == rest[k - 1] && u[k] in rest;
      }
      EndUnique(u, 0, {CLOSE}, |u|);
    }
  }

  /** The name of the module whose options are set; none if the brackets do not match. */
  lemma {:induction false} NameUnderscores(n: Name)
    requires ProperName(n)
    ensures Underscores(NameText(n)) == if n.Matched? then Some(PartsRenamed(n.parts)) else None
  {
    match n
    case Matched(xs) =>
      PartsUnderscores(xs, []);
      assert PartsText(xs) + [] == PartsText(xs) && PartsRenamed(xs) + [] == PartsRenamed(xs);
    case Opened(xs, rest) =>
      UnmatchedUnderscores(OPEN, rest);
      PartsUnderscores(xs, [OPEN] + rest);
      assert PartsText(xs) + [OPEN] + rest == PartsText(xs) + ([OPEN] + rest);
    case Closed(xs, rest) =>
      UnmatchedUnderscores(CLOSE, rest);
      PartsUnderscores(xs, [CLOSE] + rest);
      assert PartsText(xs) + [CLOSE] + rest == PartsText(xs) + ([CLOSE] + rest);
  }

  lemma {:induction false} TabsReplaced(s: Str)
    ensures TabsToSpaces(s) == Replaced(s, TAB, SPACE)
  {
    if s != [] {
      TabsReplaced(s[1..]);
      var head: Str := [if s[0] == TAB then SPACE else s[0]];
      assert Replaced(s, TAB, SPACE) == head + Replaced(s[1..], TAB, SPACE);
    }
  }

  // ----- names between commas

  function Listed(names: seq<Str>): Str {
    if names == [] then [] else if |names| == 1 then names[0] else names[0] + [COMMA] + Listed(names[1..])
  }

  lemma {:induction false} PiecesShift(front: Str, x: Str, i: nat, s: Str, k: nat)
    requires i <= |x| && s == front + x && k == |front| + i
    ensures Pieces(s, k) == Pieces(x, i)
    decreases |x| - i
  {
    var e := TokenEnd(x, i, {COMMA});
    var f := |front| + e;
    PieceShift(front, x, i, e, s, k, f);
    Kcmdline.PiecesStep(x, i, e, x[i..e]);
    Kcmdline.PiecesStep(s, k, f, x[i..e]);
    if e < |x| {
      PiecesShift(front, x, e + 1, s, f + 1);
    }
  }

  lemma PieceShift(front: Str, x: Str, i: nat, e: nat, s: Str, k: nat, f: nat)
    requires i <= |x| && e == TokenEnd(x, i, {COMMA}) && s == front + x && k == |front| + i && f == |front| + e
    ensures TokenEnd(s, k, {COMMA}) == f && s[k..f] == x[i..e]
  {
    assert forall j :: k <= j < f ==> s[j] == x[j - |front|];
    EndUnique(s, k, {COMMA}, f);
  }

  lemma {:induction false} ListedPieces(names: seq<Str>)
    requires names != [] && forall i :: 0 <= i < |names| ==> COMMA !in names[i]
    ensures Pieces(Listed(names), 0) == names
    decreases |names|
  {
    var s, e := Listed(names), |names[0]|;
    forall k | 0 <= k < e ensures s[k] !in {COMMA} {
      assert s[k] == names[0][k] && s[k] in names[0];
    }
    EndUnique(s, 0, {COMMA}, e);
    if |names| > 1 {
      var rest := Listed(names[1..]);
      ListedPieces(names[1..]);
      assert s[..e] == names[0];
      PiecesShift(names[0] + [COMMA], rest, 0, s, e + 1);
    } else {
      assert s[0..] == s;
    }
  }

  lemma {:induction false} BlacklistsInOrder(names: seq<Str>)
    ensures Blacklists(names) == seq(|names|, i requires 0 <= i < |names| => Blacklist(names[i]))
  {
    if names != [] {
      BlacklistsInOrder(names[..|names| - 1]);
    }
  }

  // ----- words

  /** Options: mod.param=text, mod.param, two quoted forms, names to blacklist, and two forms that set nothing. */
  datatype Word =
    | Given(name: Name, param: Str, text: Str)
    | Bare(name: Name, param: Str)
    | ValueQuoted(name: Name, param: Str, text: Str)
    | WholeQuoted(name: Name, param: Str, text: Str)
    | Banned(names: seq<Str>)
    | Other(text: Str)
    | Dotted(name: Name, param: Str, text: Str)

  function Spelled(w: Word): Str {
    match w
    case Given(name, param, text) => NameText(name) + [DOT] + param + [EQUALS] + text
    case Bare(name, param) => NameText(name) + [DOT] + param
    case ValueQuoted(name, param, text) => NameText(name) + [DOT] + param + [EQUALS] + ([QUOTE] + text + [QUOTE])
    case WholeQuoted(name, param, text) => [QUOTE] + (NameText(name) + [DOT] + param + [EQUALS] + (text + [QUOTE]))
    case Banned(names) => Ascii("modprobe.blacklist=") + Listed(names)
    case Other(text) => text
    case Dotted(name, param, text) => NameText(name) + [DOT] + param + [DOT] + text
  }

  /** No quote and no white space. */
  predicate IsBare(s: Str) {
    forall i :: 0 <= i < |s| ==> s[i] != QUOTE && s[i] !in SPACES
  }

  predicate ProperSetting(name: Name, param: Str) {
    ProperName(name) && NoSpecial(NameText(name)) && NoSpecial(param)
  }

  predicate IsBlacklist(name: Name, param: Str) {
    NameText(name) == Ascii("modprobe") && param == Ascii("blacklist")
  }

  predicate ProperWord(w: Word) {
    match w
    case Given(name, param, text) => ProperSetting(name, param) && !IsBlacklist(name, param) && IsBare(text)
    case Bare(name, param) => ProperSetting(name, param)
    case ValueQuoted(name, param, text) => ProperSetting(name, param) && !IsBlacklist(name, param) && QUOTE !in text
    case WholeQuoted(name, param, text) => ProperSetting(name, param) && !IsBlacklist(name, param) && QUOTE !in text
    case Banned(names) => names != [] && forall i :: 0 <= i < |names| ==> COMMA !in names[i] && IsBare(names[i])
    case Other(text) => IsBare(text) && forall i :: 0 <= i < |text| && text[i] == DOT ==> EQUALS in text[..i]
    case Dotted(name, param, text) => ProperSetting(name, param) && IsBare(text)
  }

  /** The options of a module; nothing is set if the brackets in its name do not match. */
  function Sets(name: Name, text: Str): seq<Effect> {
    if name.Matched? then [Options(PartsRenamed(name.parts), text)] else []
  }

  function Meaning(w: Word): seq<Effect> {
    match w
    case Given(name, param, text) => Sets(name, param + [EQUALS] + text)
    case Bare(name, param) => Sets(name, param)
    case ValueQuoted(name, param, text) => Sets(name, param + [EQUALS] + [QUOTE] + Replaced(text, TAB, SPACE) + [QUOTE])
    case WholeQuoted(name, param, text) => Sets(name, param + [EQUALS] + [QUOTE] + Replaced(text, TAB, SPACE) + [QUOTE])
    case Banned(names) => seq(|names|, i requires 0 <= i < |names| => Blacklist(names[i]))
    case _ => []
  }

  // ----- each word is an option

  lemma BareIsOption(t: Str)
    requires IsBare(t)
    ensures IsOption(t)
  {
    OutsideQuotes(t, |t|);
    OptionEndUnique(t, 0, |t|);
  }

  lemma BareJoin(a: Str, b: Str)
    requires IsBare(a) && IsBare(b)
    ensures IsBare(a + b)
  {
  }

  lemma {:induction false} ListedBare(names: seq<Str>)
    requires names != [] && forall i :: 0 <= i < |names| ==> IsBare(names[i])
    ensures IsBare(Listed(names))
    decreases |names|
  {
    if |names| > 1 {
      ListedBare(names[1..]);
      BareJoin(names[0], [COMMA]);
      BareJoin(names[0] + [COMMA], Listed(names[1..]));
    }
  }

  lemma BlacklistText()
    ensures Ascii("modprobe") == MODPROBE && Ascii("blacklist") + [EQUALS] == BLACKLIST
    ensures NoSpecial(MODPROBE) && NoSpecial(Ascii("blacklist"))
  {
  }

  lemma BlacklistPrefix()
    ensures Ascii("modprobe.blacklist=") == MODPROBE + [DOT] + BLACKLIST
  {
  }

  lemma PrefixBare()
    ensures IsBare(Ascii("modprobe.blacklist="))
  {
    BlacklistPrefix();
    assert IsBare(MODPROBE) && IsBare(BLACKLIST);
    BareJoin(MODPROBE, [DOT]);
    BareJoin(MODPROBE + [DOT], BLACKLIST);
  }

  lemma {:induction false} BannedIsOption(names: seq<Str>)
    requires names != [] && forall i :: 0 <= i < |names| ==> IsBare(names[i])
    ensures IsOption(Ascii("modprobe.blacklist=") + Listed(names))
  {
    var prefix := Ascii("modprobe.blacklist=");
    PrefixBare();
    ListedBare(names);
    BareJoin(prefix, Listed(names));
    BareIsOption(prefix + Listed(names));
  }

  lemma DottedIsOption(modname: Str, param: Str, rest: Str)
    requires NoSpecial(modname) && NoSpecial(param) && IsBare(rest)
    ensures IsOption(modname + [DOT] + param + rest)
  {
    BareJoin(modname, [DOT]);
    BareJoin(modname + [DOT], param);
    BareJoin(modname + [DOT] + param, rest);
    BareIsOption(modname + [DOT] + param + rest);
  }

  lemma {:induction false} SpelledIsOption(w: Word)
    requires ProperWord(w)
    ensures IsOption(Spelled(w))
  {
    match w
    case Given(name, param, text) =>
      BareJoin([EQUALS], text);
      DottedIsOption(NameText(name), param, [EQUALS] + text);
      Regroup(NameText(name) + [DOT] + param, [EQUALS], text);
    case Bare(name, param) =>
      DottedIsOption(NameText(name), param, []);
      assert Spelled(w) + [] == Spelled(w);
    case ValueQuoted(name, param, text) => QuotedValueIsOption(NameText(name), param, text);
    case WholeQuoted(name, param, text) => QuotedOptionIsOption(NameText(name), param, text);
    case Banned(names) => BannedIsOption(names);
    case Other(text) => BareIsOption(text);
    case Dotted(name, param, text) =>
      BareJoin([DOT], text);
      DottedIsOption(NameText(name), param, [DOT] + text);
      Regroup(NameText(name) + [DOT] + param, [DOT], text);
  }

  lemma Regroup(a: Str, b: Str, c: Str)
    ensures a + (b + c) == a + b + c
  {
  }

  // ----- what each word sets

  lemma ReplacedNone(s: Str)
    requires TAB !in s
    ensures TabsToSpaces(s) == s
  {
    TabsReplaced(s);
  }

  lemma TabsAppend(a: Str, b: Str)
    ensures TabsToSpaces(a + b) == TabsToSpaces(a) + TabsToSpaces(b)
  {
    TabsReplaced(a);
    TabsReplaced(b);
    TabsReplaced(a + b);
  }

  lemma {:induction false} SetsEffects(name: Name, setting: Str)
    requires ProperName(name) && !(NameText(name) == MODPROBE && BLACKLIST <= setting)
    ensures Effects(NameText(name), setting) == Sets(name, TabsToSpaces(setting))
  {
    NameUnderscores(name);
  }

  /** A setting starts with "blacklist=" only if its parameter is "blacklist". */
  lemma BlacklistParam(param: Str, text: Str)
    requires NoSpecial(param) && BLACKLIST <= param + [EQUALS] + text
    ensures param == Ascii("blacklist")
  {
    var s := param + [EQUALS] + text;
    assert s[|param|] == EQUALS && s[9] == BLACKLIST[9] == EQUALS;
    assert forall i :: 0 <= i < 9 ==> s[i] == BLACKLIST[i] && s[i] != EQUALS;
    assert |param| >= 9;
    assert forall i :: 0 <= i < 9 ==> param[i] == s[i];
  }

  lemma {:induction false} ValuedEffects(name: Name, param: Str, text: Str)
    requires ProperSetting(name, param) && !IsBlacklist(name, param)
    ensures Effects(NameText(name), param + [EQUALS] + text) == Sets(name, param + [EQUALS] + TabsToSpaces(text))
  {
    var setting := param + [EQUALS] + text;
    if BLACKLIST <= setting {
      BlacklistParam(param, text);
      BlacklistText();
    }
    SetsEffects(name, setting);
    TabsAppend(param + [EQUALS], text);
    ReplacedNone(param + [EQUALS]);
  }

  lemma {:induction false} QuotedEffects(name: Name, param: Str, text: Str)
    requires ProperSetting(name, param) && !IsBlacklist(name, param)
    ensures Effects(NameText(name), param + [EQUALS] + ([QUOTE] + text + [QUOTE]))
         == Sets(name, param + [EQUALS] + [QUOTE] + Replaced(text, TAB, SPACE) + [QUOTE])
  {
    var r := Replaced(text, TAB, SPACE);
    ValuedEffects(name, param, [QUOTE] + text + [QUOTE]);
    TabsAppend([QUOTE] + text, [QUOTE]);
    TabsAppend([QUOTE], text);
    TabsReplaced(text);
    ReplacedNone([QUOTE]);
    assert param + [EQUALS] + ([QUOTE] + r + [QUOTE]) == param + [EQUALS] + [QUOTE] + r + [QUOTE];
  }

  lemma {:induction false} BannedEffects(names: seq<Str>)
    requires names != [] && forall i :: 0 <= i < |names| ==> COMMA !in names[i]
    ensures Effects(MODPROBE, BLACKLIST + Listed(names))
         == seq(|names|, i requires 0 <= i < |names| => Blacklist(names[i]))
  {
    var setting := BLACKLIST + Listed(names);
    assert setting[|BLACKLIST|..] == Listed(names);
    ListedPieces(names);
    BlacklistsInOrder(names);
  }

  lemma {:induction false} BannedSetting(names: seq<Str>)
    requires names != []
    ensures Setting(Ascii("modprobe.blacklist=") + Listed(names)) == Some((MODPROBE, BLACKLIST + Listed(names)))
  {
    var param := Ascii("blacklist");
    BlacklistText();
    BlacklistPrefix();
    PlainSetting(MODPROBE, param, Listed(names));
    assert MODPROBE + [DOT] + (param + [EQUALS]) + Listed(names) == MODPROBE + [DOT] + param + [EQUALS] + Listed(names);
  }

  /** The phase of an option from its first special character. */
  lemma {:induction false} DottedSetting(modname: Str, param: Str, rest: Str)
    requires NoSpecial(modname) && NoSpecial(param) && (rest != [] ==> rest[0] == DOT)
    ensures Setting(modname + [DOT] + param + rest) == if rest == [] then Some((modname, param)) else None
  {
    var u := modname + [DOT] + param + rest;
    var a, b := |modname|, |modname| + 1 + |param|;
    assert u[a] == DOT && (b < |u| ==> u[b] == rest[0]);
    forall k | 0 <= k < a ensures u[k] !in SPECIAL {
      assert u[k] == modname[k];
    }
    forall k | a + 1 <= k < b ensures u[k] !in SPECIAL {
      assert u[k] == param[k - a - 1];
    }
    EndUnique(u, 0, SPECIAL, a);
    EndUnique(u, a + 1, SPECIAL, b);
    assert u[0] != QUOTE;
    assert u[..a] == modname && (rest == [] ==> u[a + 1..] == param);
  }

  lemma {:induction false} OtherSetting(text: Str)
    requires IsBare(text) && forall i :: 0 <= i < |text| && text[i] == DOT ==> EQUALS in text[..i]
    ensures Setting(text) == None
  {
    var a := TokenEnd(text, 0, SPECIAL);
    assert EQUALS !in text[..a];
  }

  lemma {:induction false} GivenEffects(name: Name, param: Str, text: Str)
    requires ProperSetting(name, param) && !IsBlacklist(name, param) && IsBare(text)
    ensures OptionEffects(Assign(NameText(name), param, text)) == Sets(name, param + [EQUALS] + text)
  {
    PlainSetting(NameText(name), param, text);
    ValuedEffects(name, param, text);
    ReplacedNone(text);
  }

  lemma {:induction false} BareEffects(name: Name, param: Str)
    requires ProperSetting(name, param)
    ensures OptionEffects(NameText(name) + [DOT] + param) == Sets(name, param)
  {
    DottedSetting(NameText(name), param, []);
    assert NameText(name) + [DOT] + param + [] == NameText(name) + [DOT] + param;
    assert !(BLACKLIST <= param) by {
      assert BLACKLIST[9] in SPECIAL;
    }
    SetsEffects(name, param);
    ReplacedNone(param);
  }

  lemma {:induction false} QuotedMeans(t: Str, name: Name, param: Str, text: Str)
    requires ProperSetting(name, param) && !IsBlacklist(name, param)
    requires Setting(t) == Some((NameText(name), param + [EQUALS] + ([QUOTE] + text + [QUOTE])))
    ensures OptionEffects(t) == Sets(name, param + [EQUALS] + [QUOTE] + Replaced(text, TAB, SPACE) + [QUOTE])
  {
    QuotedEffects(name, param, text);
    SettingEffects(t, NameText(name), param + [EQUALS] + ([QUOTE] + text + [QUOTE]));
  }

  lemma {:induction false} SettingEffects(t: Str, modname: Str, setting: Str)
    requires Setting(t) == Some((modname, setting))
    ensures OptionEffects(t) == Effects(modname, setting)
  {
  }

  lemma {:induction false} BannedMeans(names: seq<Str>)
    requires names != [] && forall i :: 0 <= i < |names| ==> COMMA !in names[i]
    ensures OptionEffects(Ascii("modprobe.blacklist=") + Listed(names)) == Meaning(Banned(names))
  {
    BannedSetting(names);
    BannedEffects(names);
  }

  lemma {:induction false} NoneEffects(text: Str)
    requires Setting(text) == None
    ensures OptionEffects(text) == []
  {
  }

  /** Each word means what it says. */
  lemma {:induction false} WordEffects(w: Word)
    requires ProperWord(w)
    ensures OptionEffects(Spelled(w)) == Meaning(w)
  {
    match w
    case Given(name, param, text) => GivenEffects(name, param, text);
    case Bare(name, param) => BareEffects(name, param);
    case ValueQuoted(name, param, text) =>
      SameSetting(NameText(name), param, text);
      QuotedMeans(Spelled(w), name, param, text);
    case WholeQuoted(name, param, text) =>
      SameSetting(NameText(name), param, text);
      QuotedMeans(Spelled(w), name, param, text);
    case Banned(names) => BannedMeans(names);
    case Other(text) =>
      OtherSetting(text);
      NoneEffects(text);
    case Dotted(name, param, text) =>
      DottedSetting(NameText(name), param, [DOT] + text);
      Regroup(NameText(name) + [DOT] + param, [DOT], text);
      NoneEffects(Spelled(w));
  }

  // ----- the line

  /** Words with one white space character between two; more of them leave empty words. */
  function Line(ws: seq<Word>, seps: Str): Str
    requires ws != [] && |seps| == |ws| - 1
  {
    if |ws| == 1 then Spelled(ws[0]) else Spelled(ws[0]) + ([seps[0]] + Line(ws[1..], seps[1..]))
  }

  function Meanings(ws: seq<Word>): seq<Effect> {
    if ws == [] then [] else Meaning(ws[0]) + Meanings(ws[1..])
  }

  /** A command line means what its words say, one after the other. */
  lemma {:induction false} LineMeans(ws: seq<Word>, seps: Str)
    requires ws != [] && |seps| == |ws| - 1 && forall i :: 0 <= i < |ws| ==> ProperWord(ws[i])
    requires forall i :: 0 <= i < |seps| ==> seps[i] in SPACES
    ensures AllEffects(OptionsFrom(Line(ws, seps), 0)) == Meanings(ws)
    decreases |ws|
  {
    var t := Spelled(ws[0]);
    SpelledIsOption(ws[0]);
    WordEffects(ws[0]);
    if |ws| == 1 {
      FirstEffects(t, [], Line(ws, seps));
      assert Meanings(ws[1..]) == [];
    } else {
      var rest := Line(ws[1..], seps[1..]);
      LineMeans(ws[1..], seps[1..]);
      FirstEffects(t, [seps[0]] + rest, Line(ws, seps));
      OptionsShift([seps[0]], rest, 0, [seps[0]] + rest, 1);
    }
  }

  lemma {:induction false} FirstEffects(t: Str, rest: Str, line: Str)
    requires IsOption(t) && (rest != [] ==> rest[0] in SPACES) && line == t + rest
    ensures AllEffects(OptionsFrom(line, 0))
         == OptionEffects(t) + if rest == [] then [] else AllEffects(OptionsFrom(rest, 1))
  {
    OptionFirst([], t, rest);
    assert [] + t + rest == line;
    var others := if rest == [] then [] else OptionsFrom(rest, 1);
    AllEffectsAppend([t], others);
    FlatMapOne(OptionEffects, t);
  }

  // ----- the parser on such lines

  ghost predicate Holds(buf: array<Byte>, s: Str)
    reads buf
  {
    |s| < buf.Length && buf[..|s|] == s && buf[|s|] == 0 && IsCString(s)
  }

  method ParseLine(buf: array<Byte>, ghost ws: seq<Word>, ghost seps: Str) returns (out: seq<Effect>)
    requires ws != [] && |seps| == |ws| - 1 && forall i :: 0 <= i < |ws| ==> ProperWord(ws[i])
    requires (forall i :: 0 <= i < |seps| ==> seps[i] in SPACES) && Holds(buf, Line(ws, seps))
    modifies buf
    ensures out == Meanings(ws)
  {
    LineMeans(ws, seps);
    out := Kcmdline.ParseKcmdline(buf, Line(ws, seps));
  }

  method ParseWord(buf: array<Byte>, ghost w: Word) returns (out: seq<Effect>)
    requires ProperWord(w) && Holds(buf, Spelled(w))
    modifies buf
    ensures out == Meaning(w)
  {
    assert [w][1..] == [] && Meanings([]) == [];
    assert Meanings([w]) == Meaning(w) + [];
    out := ParseLine(buf, [w], []);
  }

  lemma PlainName(modname: Str)
    requires OPEN !in modname && CLOSE !in modname
    ensures var n := Matched([Outside(modname)]);
            ProperName(n) && NameText(n) == modname && PartsRenamed(n.parts) == Replaced(modname, DASH, UNDERSCORE)
  {
    var xs := [Outside(modname)];
    assert xs[1..] == [] && PartsText([]) == [] && PartsRenamed([]) == [];
    assert PartsText(xs) == modname + [];
  }

  /** `n` is the name with underscores for dashes. */
  predicate Renamed(modname: Str, n: Str) {
    |n| == |modname| && forall i :: 0 <= i < |n| ==> n[i] == if modname[i] == DASH then UNDERSCORE else modname[i]
  }

  /** mod.param=text */
  method ParseGiven(buf: array<Byte>, ghost modname: Str, ghost param: Str, ghost text: Str) returns (out: seq<Effect>)
    requires NoSpecial(modname) && NoSpecial(param) && IsBare(text) && OPEN !in modname && CLOSE !in modname
    requires !(modname == Ascii("modprobe") && param == Ascii("blacklist"))
    requires Holds(buf, modname + [DOT] + param + [EQUALS] + text)
    modifies buf
    ensures |out| == 1 && out[0].Options? && Renamed(modname, out[0].modname)
    ensures out[0].text == param + [EQUALS] + text
  {
    PlainName(modname);
    out := ParseWord(buf, Given(Matched([Outside(modname)]), param, text));
  }

  /** mod.param */
  method ParseBare(buf: array<Byte>, ghost modname: Str, ghost param: Str) returns (out: seq<Effect>)
    requires NoSpecial(modname) && NoSpecial(param) && OPEN !in modname && CLOSE !in modname
    requires Holds(buf, modname + [DOT] + param)
    modifies buf
    ensures |out| == 1 && out[0].Options? && Renamed(modname, out[0].modname) && out[0].text == param
  {
    PlainName(modname);
    out := ParseWord(buf, Bare(Matched([Outside(modname)]), param));
  }

  /** modprobe.blacklist=name,name,... */
  method ParseBanned(buf: array<Byte>, ghost names: seq<Str>) returns (out: seq<Effect>)
    requires names != [] && forall i :: 0 <= i < |names| ==> COMMA !in names[i] && IsBare(names[i])
    requires Holds(buf, Ascii("modprobe.blacklist=") + Listed(names))
    modifies buf
    ensures |out| == |names| && forall i :: 0 <= i < |names| ==> out[i] == Blacklist(names[i])
  {
    out := ParseWord(buf, Banned(names));
  }
}
