/**
 Lines of soft dependencies: words separated by white space, each assigned to the most recent of the markers
 pre: and post:. The parser counts in one pass and copies in a second one.
 */
module Softdep {
  import opened Text
  import opened Tokens

  /** The bytes of "pre:" and "post:". */
  const PRE: Str := [112, 114, 101, 58]
  const POST: Str := [112, 111, 115, 116, 58]

  datatype Mode = NoMode | PreMode | PostMode

  /** The words assigned to each marker. */
  datatype Deps = Deps(pre: seq<Str>, post: seq<Str>)

  predicate IsMarker(t: Str) {
    t == PRE || t == POST
  }

  function MarkerMode(t: Str): Mode
    requires IsMarker(t)
  {
    if t == PRE then PreMode else PostMode
  }

  /** The words partitioned by the most recent marker; words before any marker are dropped. */
  function Assign(ts: seq<Str>, mode: Mode): Deps {
    if ts == [] then Deps([], [])
    else if IsMarker(ts[0]) then Assign(ts[1..], MarkerMode(ts[0]))
    else
      var rest := Assign(ts[1..], mode);
      match mode
      case NoMode => rest
      case PreMode => rest.(pre := [ts[0]] + rest.pre)
      case PostMode => rest.(post := [ts[0]] + rest.post)
  }

  function Joined(a: Deps, b: Deps): Deps {
    Deps(a.pre + b.pre, a.post + b.post)
  }

  /** The deps after one more word. */
  function Put(d: Deps, mode: Mode, t: Str): Deps {
    match mode
    case NoMode => d
    case PreMode => d.(pre := d.pre + [t])
    case PostMode => d.(post := d.post + [t])
  }

  function NextMode(mode: Mode, t: Str): Mode {
    if IsMarker(t) then MarkerMode(t) else mode
  }

  lemma AssignStep(d: Deps, mode: Mode, ts: seq<Str>)
    requires ts != []
    ensures Joined(d, Assign(ts, mode))
         == Joined(if IsMarker(ts[0]) then d else Put(d, mode, ts[0]), Assign(ts[1..], NextMode(mode, ts[0])))
  {
    var t, rest := ts[0], Assign(ts[1..], mode);
    assert d.pre + ([t] + rest.pre) == d.pre + [t] + rest.pre;
    assert d.post + ([t] + rest.post) == d.post + [t] + rest.post;
  }

  // ----- which words belong to a marker

  /** The last marker before position `i` is `marker`. */
  ghost predicate LastMarker(ts: seq<Str>, i: nat, marker: Str)
    requires i <= |ts|
  {
    exists j: nat :: j < i && ts[j] == marker && forall k :: j < k < i ==> ts[k] != PRE && ts[k] != POST
  }

  /** Token `i` is a word under the marker. */
  ghost predicate Belongs(ts: seq<Str>, i: nat, marker: Str)
    requires i < |ts|
  {
    ts[i] != PRE && ts[i] != POST && LastMarker(ts, i, marker)
  }

  /** The positions of these tokens, in order. */
  ghost function Positions(ts: seq<Str>, marker: Str, n: nat): (at: seq<nat>)
    requires n <= |ts|
    ensures forall i: nat :: i in at <==> i < n && Belongs(ts, i, marker)
    ensures forall a, b :: 0 <= a < b < |at| ==> at[a] < at[b]
  {
    if n == 0 then []
    else
      var at := Positions(ts, marker, n - 1);
      assert forall a :: 0 <= a < |at| ==> at[a] in at;
      if Belongs(ts, n - 1, marker) then at + [n - 1] else at
  }

  /** The tokens at these positions. */
  ghost function Chosen(ts: seq<Str>, marker: Str, n: nat): (words: seq<Str>)
    requires n <= |ts|
    ensures |words| == |Positions(ts, marker, n)|
    ensures forall a :: 0 <= a < |words| ==>
              Positions(ts, marker, n)[a] in Positions(ts, marker, n) && words[a] == ts[Positions(ts, marker, n)[a]]
  {
    if n == 0 then []
    else
      Chosen(ts, marker, n - 1) + if Belongs(ts, n - 1, marker) then [ts[n - 1]] else []
  }

  /** The mode in front of token `n`. */
  function ModeAt(ts: seq<Str>, n: nat): Mode
    requires n <= |ts|
  {
    if n == 0 then NoMode else NextMode(ModeAt(ts, n - 1), ts[n - 1])
  }

  lemma LastMarkerNext(ts: seq<Str>, n: nat, marker: Str)
    requires 0 < n <= |ts|
    ensures IsMarker(ts[n - 1]) && IsMarker(marker) ==> (LastMarker(ts, n, marker) <==> ts[n - 1] == marker)
    ensures !IsMarker(ts[n - 1]) && IsMarker(marker) ==> (LastMarker(ts, n, marker) <==> LastMarker(ts, n - 1, marker))
  {
  }

  /** The parser's mode is the last marker. */
  lemma {:induction false} ModeIsMarker(ts: seq<Str>, n: nat)
    requires n <= |ts|
    ensures ModeAt(ts, n) == PreMode <==> LastMarker(ts, n, PRE)
    ensures ModeAt(ts, n) == PostMode <==> LastMarker(ts, n, POST)
  {
    if n > 0 {
      ModeIsMarker(ts, n - 1);
      LastMarkerNext(ts, n, PRE);
      LastMarkerNext(ts, n, POST);
    }
  }

  ghost function ChosenDeps(ts: seq<Str>, n: nat): Deps
    requires n <= |ts|
  {
    Deps(Chosen(ts, PRE, n), Chosen(ts, POST, n))
  }

  lemma {:induction false} ChosenNext(ts: seq<Str>, n: nat)
    requires n < |ts|
    ensures ChosenDeps(ts, n + 1)
         == if IsMarker(ts[n]) then ChosenDeps(ts, n) else Put(ChosenDeps(ts, n), ModeAt(ts, n), ts[n])
  {
    ModeIsMarker(ts, n);
  }

  lemma {:induction false} AssignTail(ts: seq<Str>, n: nat)
    requires n < |ts|
    ensures Joined(ChosenDeps(ts, n), Assign(ts[n..], ModeAt(ts, n)))
         == Joined(ChosenDeps(ts, n + 1), Assign(ts[n + 1..], ModeAt(ts, n + 1)))
  {
    var d, mode, rest := ChosenDeps(ts, n), ModeAt(ts, n), ts[n..];
    ChosenNext(ts, n);
    assert rest[0] == ts[n] && rest[1..] == ts[n + 1..];
    AssignStep(d, mode, rest);
  }

  lemma {:induction false} AssignFrom(ts: seq<Str>, n: nat)
    requires n <= |ts|
    ensures Joined(ChosenDeps(ts, n), Assign(ts[n..], ModeAt(ts, n))) == ChosenDeps(ts, |ts|)
    decreases |ts| - n
  {
    if n < |ts| {
      AssignTail(ts, n);
      AssignFrom(ts, n + 1);
    } else {
      JoinedNone(ChosenDeps(ts, n));
    }
  }

  lemma JoinedNone(d: Deps)
    ensures Joined(d, Deps([], [])) == d && Joined(Deps([], []), d) == d
  {
  }

  /** The words of each marker are those at the positions behind it, in order. */
  lemma {:induction false} AssignedByPosition(ts: seq<Str>)
    ensures Assign(ts, NoMode) == Deps(Chosen(ts, PRE, |ts|), Chosen(ts, POST, |ts|))
  {
    AssignFrom(ts, 0);
    assert ts[0..] == ts;
    JoinedNone(Assign(ts, NoMode));
  }

  // ----- the words the parser sees

  /** Exactly one white space character stands at the start, and something behind it. */
  predicate OneLeading(line: Str) {
    |line| >= 2 && line[0] in SPACES && line[1] !in SPACES
  }

  /** The words, as the parser cuts them: a single white space character at the start stays in the first word. */
  function Words(line: Str): seq<Str> {
    if OneLeading(line) then
      var e := TokenEnd(line, 1, SPACES);
      [line[..e]] + TokensFrom(line, e, SPACES)
    else TokensFrom(line, 0, SPACES)
  }

  /** What the parser has still to see when the current word starts at `p` and the cursor is at `s`. */
  function Remaining(line: Str, p: nat, s: nat): seq<Str>
    requires p <= s <= |line|
  {
    if p == 0 < s && OneLeading(line) then
      var e := TokenEnd(line, s, SPACES);
      [line[..e]] + TokensFrom(line, e, SPACES)
    else TokensFrom(line, p, SPACES)
  }

  /** The parser's variables: no white space in the current word, except at the start of the line. */
  ghost predicate Scanning(line: Str, p: nat, s: nat, wasSpace: bool) {
    && p <= s <= |line|
    && (s > 0 ==> wasSpace == (line[s - 1] in SPACES))
    && (s == 0 ==> !wasSpace)
    && (forall k :: p <= k < s && k > 0 ==> line[k] !in SPACES)
    && (p < s && line[p] in SPACES ==> p == 0 && (s == 1 || OneLeading(line)))
    && (p > 0 ==> line[p - 1] in SPACES)
  }

  /** A character inside a word. */
  lemma InWord(line: Str, p: nat, s: nat, wasSpace: bool)
    requires Scanning(line, p, s, wasSpace) && s < |line| && line[s] !in SPACES
    ensures Scanning(line, p, s + 1, false) && Remaining(line, p, s + 1) == Remaining(line, p, s)
  {
    if p == 0 && OneLeading(line) && s == 0 {
      assert false;
    }
  }

  /** White space behind white space. */
  lemma MoreSpace(line: Str, p: nat, s: nat)
    requires Scanning(line, p, s, true) && s < |line| && line[s] in SPACES
    ensures Scanning(line, s + 1, s + 1, true) && Remaining(line, s + 1, s + 1) == Remaining(line, p, s)
  {
    SkipRun(line, p, s + 1);
  }

  lemma {:induction false} SkipRun(line: Str, p: nat, s: nat)
    requires p <= s <= |line| && forall k :: p <= k < s ==> line[k] in SPACES
    ensures TokensFrom(line, p, SPACES) == TokensFrom(line, s, SPACES)
  {
    SkipUnique(line, p, SPACES, SkipSeparators(line, s, SPACES));
    TokensSkip(line, p, s, SPACES);
  }

  /** White space at the very start of the line. */
  lemma LeadingSpace(line: Str, s: nat)
    requires Scanning(line, s, s, false) && s < |line| && line[s] in SPACES
    ensures s == 0 && Scanning(line, s, s + 1, true)
    ensures Remaining(line, s, s + 1) == Words(line)
  {
  }

  /** The end of a word. */
  lemma WordEnds(line: Str, p: nat, s: nat)
    requires Scanning(line, p, s, false) && p < s && (s < |line| ==> line[s] in SPACES)
    ensures Remaining(line, p, s) == [line[p..s]] + TokensFrom(line, s, SPACES)
    ensures s < |line| ==> Scanning(line, s + 1, s + 1, true)
    ensures s < |line| ==> Remaining(line, s + 1, s + 1) == TokensFrom(line, s, SPACES)
    ensures s == |line| ==> TokensFrom(line, s, SPACES) == []
  {
    if s < |line| {
      SkipRun(line, s, s + 1);
    }
    if !(p == 0 && OneLeading(line)) {
      SkipUnique(line, p, SPACES, p);
      EndUnique(line, p, SPACES, s);
    } else {
      EndUnique(line, s, SPACES, s);
    }
  }

  /** The end of the line behind white space: no word is left, and what looks like one is no marker. */
  lemma LineEnds(line: Str, p: nat)
    requires Scanning(line, p, |line|, true)
    ensures Remaining(line, p, |line|) == [] && !IsMarker(line[p..])
  {
    SkipRun(line, p, |line|);
    assert |line[p..]| <= 1;
  }

  /** All that the parser has still to see. */
  function Todo(line: Str, p: nat, s: nat): seq<Str>
    requires p <= s <= |line|
  {
    if s == 0 then Words(line) else Remaining(line, p, s)
  }

  /** `d` has been found so far, in the given mode. */
  ghost predicate Found(line: Str, p: nat, s: nat, wasSpace: bool, mode: Mode, d: Deps, all: Deps) {
    && Scanning(line, p, s, wasSpace) && (s == 0 ==> mode == NoMode)
    && all == Joined(d, Assign(Todo(line, p, s), mode))
  }

  ghost function Finds(line: Str, p: nat, s: nat, wasSpace: bool, mode: Mode, all: Deps): iset<Deps> {
    iset d: Deps | forall k :: Asked(k) ==> Found(line, p, s, wasSpace, mode, d, all)
  }

  lemma IsFound(line: Str, p: nat, s: nat, wasSpace: bool, mode: Mode, d: Deps, all: Deps)
    ensures d in Finds(line, p, s, wasSpace, mode, all) <==> Found(line, p, s, wasSpace, mode, d, all)
  {
    if d in Finds(line, p, s, wasSpace, mode, all) {
      assert Asked(0);
    }
  }

  lemma FoundStart(line: Str, all: Deps)
    requires all == Assign(Words(line), NoMode)
    ensures Deps([], []) in Finds(line, 0, 0, false, NoMode, all)
  {
    assert Joined(Deps([], []), all) == all;
    IsFound(line, 0, 0, false, NoMode, Deps([], []), all);
  }

  lemma FoundInWord(line: Str, p: nat, s: nat, wasSpace: bool, mode: Mode, d: Deps, all: Deps)
    requires d in Finds(line, p, s, wasSpace, mode, all) && s < |line| && line[s] !in SPACES
    ensures d in Finds(line, p, s + 1, false, mode, all)
  {
    IsFound(line, p, s, wasSpace, mode, d, all);
    InWord(line, p, s, wasSpace);
    IsFound(line, p, s + 1, false, mode, d, all);
  }

  lemma FoundMoreSpace(line: Str, p: nat, s: nat, mode: Mode, d: Deps, all: Deps)
    requires d in Finds(line, p, s, true, mode, all) && s < |line| && line[s] in SPACES
    ensures d in Finds(line, s + 1, s + 1, true, mode, all)
  {
    IsFound(line, p, s, true, mode, d, all);
    MoreSpace(line, p, s);
    IsFound(line, s + 1, s + 1, true, mode, d, all);
  }

  lemma FoundLeading(line: Str, p: nat, s: nat, mode: Mode, d: Deps, all: Deps)
    requires d in Finds(line, p, s, false, mode, all) && s < |line| && line[s] in SPACES && p >= s
    ensures d in Finds(line, p, s + 1, true, mode, all)
  {
    IsFound(line, p, s, false, mode, d, all);
    LeadingSpace(line, s);
    IsFound(line, p, s + 1, true, mode, d, all);
  }

  /** What a whole word does. */
  function After(d: Deps, mode: Mode, t: Str): Deps {
    if IsMarker(t) then d else Put(d, mode, t)
  }

  lemma FoundWord(line: Str, p: nat, s: nat, mode: Mode, d: Deps, t: Str, all: Deps)
    requires d in Finds(line, p, s, false, mode, all) && p < s <= |line| && (s < |line| ==> line[s] in SPACES)
    requires t == line[p..s]
    ensures s < |line| ==> After(d, mode, t) in Finds(line, s + 1, s + 1, true, NextMode(mode, t), all)
    ensures s == |line| ==> all == After(d, mode, t)
  {
    IsFound(line, p, s, false, mode, d, all);
    var rest := WordTodo(line, p, s, t);
    WordAssigned(d, mode, t, rest);
    IsFound(line, s + 1, s + 1, true, NextMode(mode, t), After(d, mode, t), all);
  }

  /** The word is the next thing to see; behind it comes `rest`. */
  lemma WordTodo(line: Str, p: nat, s: nat, t: Str) returns (rest: seq<Str>)
    requires Scanning(line, p, s, false) && p < s && (s < |line| ==> line[s] in SPACES) && t == line[p..s]
    ensures Todo(line, p, s) == [t] + rest
    ensures s < |line| ==> Scanning(line, s + 1, s + 1, true) && Todo(line, s + 1, s + 1) == rest
    ensures s == |line| ==> rest == []
  {
    WordEnds(line, p, s);
    rest := TokensFrom(line, s, SPACES);
  }

  lemma WordAssigned(d: Deps, mode: Mode, t: Str, rest: seq<Str>)
    ensures Joined(d, Assign([t] + rest, mode)) == Joined(After(d, mode, t), Assign(rest, NextMode(mode, t)))
    ensures rest == [] ==> Joined(d, Assign([t] + rest, mode)) == After(d, mode, t)
  {
    var ts := [t] + rest;
    assert ts[1..] == rest && ts[0] == t;
    AssignStep(d, mode, ts);
    assert Joined(After(d, mode, t), Deps([], [])) == After(d, mode, t);
  }

  /** The line ends without a word. */
  lemma FoundEnd(line: Str, p: nat, wasSpace: bool, mode: Mode, d: Deps, all: Deps)
    requires d in Finds(line, p, |line|, wasSpace, mode, all) && (wasSpace || p == |line|)
    ensures p <= |line| && all == d && !IsMarker(line[p..]) && (!wasSpace ==> mode == NoMode)
  {
    IsFound(line, p, |line|, wasSpace, mode, d, all);
    if line != [] {
      LineEnds(line, p);
    }
    assert Joined(d, Deps([], [])) == d;
  }

  // ----- counting

  const COUNT_MAX := 0xFFFF_FFFF

  datatype Counts = Counts(pre: nat, post: nat, bytes: nat)

  function Bytes(ts: seq<Str>): nat {
    if ts == [] then 0 else Bytes(ts[..|ts| - 1]) + |ts[|ts| - 1]| + 1
  }

  function CountsOf(d: Deps): Counts {
    Counts(|d.pre|, |d.post|, Bytes(d.pre) + Bytes(d.post))
  }

  function CountPut(c: Counts, mode: Mode, n: nat): Counts {
    match mode
    case NoMode => c
    case PreMode => Counts(c.pre + 1, c.post, c.bytes + n + 1)
    case PostMode => Counts(c.pre, c.post + 1, c.bytes + n + 1)
  }

  lemma CountsNext(d: Deps, mode: Mode, t: Str)
    ensures CountsOf(Put(d, mode, t)) == CountPut(CountsOf(d), mode, |t|)
  {
    assert (d.pre + [t])[..|d.pre|] == d.pre && (d.post + [t])[..|d.post|] == d.post;
  }

  predicate Countable(c: Counts) {
    c.pre <= COUNT_MAX && c.post <= COUNT_MAX
  }

  lemma {:induction false} BytesMonotone(a: seq<Str>, b: seq<Str>)
    ensures Bytes(a) <= Bytes(a + b)
    decreases |b|
  {
    if b == [] {
      assert a + b == a;
    } else {
      assert (a + b)[..|a + b| - 1] == a + b[..|b| - 1];
      BytesMonotone(a, b[..|b| - 1]);
    }
  }

  /** What has been found counts toward the whole. */
  lemma CountsMonotone(d: Deps, rest: Deps)
    ensures var c, all := CountsOf(d), CountsOf(Joined(d, rest));
            c.pre <= all.pre && c.post <= all.post && c.bytes <= all.bytes
  {
    BytesMonotone(d.pre, rest.pre);
    BytesMonotone(d.post, rest.post);
  }

  /** The counting pass; no counts if there are more words than 32 bits can count. */
  method Count(line: Str) returns (r: Option<Counts>)
    ensures r.Some? <==> Countable(CountsOf(Assign(Words(line), NoMode)))
    ensures r.Some? ==> r.value == CountsOf(Assign(Words(line), NoMode))
  {
    var p: nat, s: nat, wasSpace, mode, c := 0, 0, false, NoMode, Counts(0, 0, 0);
    ghost var d, all := Deps([], []), Assign(Words(line), NoMode);
    FoundStart(line, all);
    var more := true;
    while more
      invariant c == CountsOf(d) && Countable(c) && p <= s <= |line|
      invariant if more then d in Finds(line, p, s, wasSpace, mode, all) else d == all
      decreases more, |line| - s
    {
      var ok;
      ok, more, p, s, wasSpace, mode, c, d := CountStep(line, p, s, wasSpace, mode, c, d, all);
      if !ok {
        return None;
      }
    }
    r := Some(c);
  }

  /** One round of the loop: a step of the cursor, or a word. */
  method CountStep(line: Str, p: nat, s: nat, wasSpace: bool, mode: Mode, c: Counts, ghost d: Deps, ghost all: Deps)
    returns (ok: bool, more: bool, p': nat, s': nat, wasSpace': bool, mode': Mode, c': Counts, ghost d': Deps)
    requires p <= s <= |line| && d in Finds(line, p, s, wasSpace, mode, all) && c == CountsOf(d) && Countable(c)
    ensures ok ==> c' == CountsOf(d') && Countable(c') && p' <= s' <= |line|
    ensures ok ==> if more then d' in Finds(line, p', s', wasSpace', mode', all) && s < s' else d' == all
    ensures !ok ==> !Countable(CountsOf(all))
  {
    var moved;
    ok, more, mode', c', d' := true, true, mode, c, d;
    moved, p', s', wasSpace' := Step(line, p, s, wasSpace, mode, d, all);
    if !moved {
      ok, mode', c', d' := CountWord(line, p, s, wasSpace, mode, c, d, all);
      more := s < |line|;
      if more {
        p', s', wasSpace' := s + 1, s + 1, true;
      }
    }
  }

  /** One step of the cursor, unless a word or the line ends here. */
  method Step(line: Str, p: nat, s: nat, wasSpace: bool, ghost mode: Mode, ghost d: Deps, ghost all: Deps)
    returns (moved: bool, p': nat, s': nat, wasSpace': bool)
    requires p <= s <= |line| && d in Finds(line, p, s, wasSpace, mode, all)
    ensures p' <= s' <= |line| && d in Finds(line, p', s', wasSpace', mode, all)
    ensures moved ==> s' == s + 1
    ensures !moved ==> p' == p && s' == s && wasSpace' == wasSpace
    ensures !moved ==> (s < |line| ==> line[s] in SPACES && !wasSpace && p < s)
  {
    moved, p', s', wasSpace' := false, p, s, wasSpace;
    if s < |line| {
      if line[s] !in SPACES {
        FoundInWord(line, p, s, wasSpace, mode, d, all);
        moved, s', wasSpace' := true, s + 1, false;
      } else if wasSpace {
        FoundMoreSpace(line, p, s, mode, d, all);
        moved, p', s' := true, s + 1, s + 1;
      } else if p >= s {
        FoundLeading(line, p, s, mode, d, all);
        moved, s', wasSpace' := true, s + 1, true;
      }
    }
  }

  /** The end of a word or of the line, whichever it is. */
  lemma Ended(line: Str, p: nat, s: nat, wasSpace: bool, mode: Mode, d: Deps, t: Str, all: Deps)
    requires d in Finds(line, p, s, wasSpace, mode, all) && p <= s <= |line| && t == line[p..s]
    requires s < |line| ==> line[s] in SPACES && !wasSpace && p < s
    ensures s == |line| && wasSpace ==> !IsMarker(t) && all == d
    ensures s == |line| && !wasSpace ==> all == After(d, mode, t)
    ensures s < |line| ==> After(d, mode, t) in Finds(line, s + 1, s + 1, true, NextMode(mode, t), all)
  {
    if p < s && !wasSpace {
      FoundWord(line, p, s, mode, d, t, all);
    } else {
      FoundEnd(line, p, wasSpace, mode, d, all);
      assert t == line[p..];
    }
  }

  lemma WholeCounts(line: Str, s: nat, mode: Mode, d: Deps, all: Deps)
    requires s < |line| ==> d in Finds(line, s + 1, s + 1, true, mode, all)
    requires s >= |line| ==> all == d
    ensures var c, whole := CountsOf(d), CountsOf(all);
            c.pre <= whole.pre && c.post <= whole.post && c.bytes <= whole.bytes
  {
    if s < |line| {
      IsFound(line, s + 1, s + 1, true, mode, d, all);
      CountsMonotone(d, Assign(Todo(line, s + 1, s + 1), mode));
    }
  }

  /** The end of a word or of the line. */
  method CountWord(line: Str, p: nat, s: nat, wasSpace: bool, mode: Mode, c: Counts, ghost d: Deps, ghost all: Deps)
    returns (ok: bool, mode': Mode, c': Counts, ghost d': Deps)
    requires p <= s <= |line| && d in Finds(line, p, s, wasSpace, mode, all) && c == CountsOf(d) && Countable(c)
    requires s < |line| ==> line[s] in SPACES && !wasSpace && p < s
    ensures ok <==> Countable(CountsOf(d'))
    ensures ok ==> c' == CountsOf(d')
    ensures ok && s < |line| ==> d' in Finds(line, s + 1, s + 1, true, mode', all)
    ensures ok && s == |line| ==> all == d'
    ensures !ok ==> !Countable(CountsOf(all))
  {
    var t := line[p..s];
    ok, mode', c', d' := true, mode, c, d;
    Ended(line, p, s, wasSpace, mode, d, t, all);
    if s < |line| || !wasSpace {
      d' := After(d, mode, t);
    }
    if IsMarker(t) {
      mode' := MarkerMode(t);
    } else if s < |line| || !wasSpace {
      CountsNext(d, mode, t);
      WholeCounts(line, s, mode, d', all);
      c' := CountPut(c, mode, |t|);
      ok := Countable(c');
    }
  }

  // ----- copying

  /** The memory of one entry: the pointers to its words, as positions in the bytes behind them. */
  datatype Block = Block(pre: array<nat>, post: array<nat>, bytes: array<Byte>)

  /** The word `t` with its terminator stands at `i`. */
  predicate Cell(b: seq<Byte>, i: nat, t: Str) {
    i + |t| + 1 <= |b| && b[i..i + |t| + 1] == t + [0]
  }

  /** The pointers lead to the words. */
  ghost predicate Cells(b: seq<Byte>, ptrs: seq<nat>, ts: seq<Str>) {
    |ptrs| == |ts| && forall k :: 0 <= k < |ts| ==> Cell(b, ptrs[k], ts[k])
  }

  lemma CellGrows(b: seq<Byte>, more: seq<Byte>, i: nat, t: Str)
    requires Cell(b, i, t)
    ensures Cell(b + more, i, t)
  {
    assert (b + more)[i..i + |t| + 1] == b[i..i + |t| + 1];
  }

  lemma CellsGrow(b: seq<Byte>, more: seq<Byte>, ptrs: seq<nat>, ts: seq<Str>)
    requires Cells(b, ptrs, ts)
    ensures Cells(b + more, ptrs, ts)
  {
    forall k | 0 <= k < |ts| ensures Cell(b + more, ptrs[k], ts[k]) {
      CellGrows(b, more, ptrs[k], ts[k]);
    }
  }

  lemma CellsAppend(b: seq<Byte>, ptrs: seq<nat>, ts: seq<Str>, t: Str)
    requires Cells(b, ptrs, ts)
    ensures Cells(b + (t + [0]), ptrs + [|b|], ts + [t])
  {
    CellsGrow(b, t + [0], ptrs, ts);
    assert (b + (t + [0]))[|b|..|b| + |t| + 1] == t + [0];
  }

  /** memcpy and the terminator */
  method Store(bytes: array<Byte>, itr: nat, t: Str)
    requires itr + |t| + 1 <= bytes.Length
    modifies bytes
    ensures bytes[..itr + |t| + 1] == old(bytes[..itr]) + (t + [0])
  {
    forall i | 0 <= i < |t| {
      bytes[itr + i] := t[i];
    }
    bytes[itr + |t|] := 0;
  }

  /** What has been copied: the words of `d`, in the first cells of the block. */
  ghost predicate Copied(b: seq<Byte>, pre: seq<nat>, post: seq<nat>, d: Deps) {
    |b| == CountsOf(d).bytes && Cells(b, pre, d.pre) && Cells(b, post, d.post)
  }

  ghost function Copies(b: seq<Byte>, pre: seq<nat>, post: seq<nat>): iset<Deps> {
    iset d: Deps | Copied(b, pre, post, d)
  }

  lemma CopiedNext(b: seq<Byte>, pre: seq<nat>, post: seq<nat>, d: Deps, mode: Mode, t: Str)
    requires d in Copies(b, pre, post)
    ensures mode == PreMode ==> Put(d, mode, t) in Copies(b + (t + [0]), pre + [|b|], post)
    ensures mode == PostMode ==> Put(d, mode, t) in Copies(b + (t + [0]), pre, post + [|b|])
  {
    CountsNext(d, mode, t);
    CellsGrow(b, t + [0], pre, d.pre);
    CellsGrow(b, t + [0], post, d.post);
    CellsAppend(b, pre, d.pre, t);
    CellsAppend(b, post, d.post, t);
  }

  /** The copying pass, into a block of the size that was counted: it fills the block exactly. */
  method Copy(line: Str, block: Block) returns (nPre: nat, nPost: nat, itr: nat)
    requires block.pre != block.post
    requires Counts(block.pre.Length, block.post.Length, block.bytes.Length) == CountsOf(Assign(Words(line), NoMode))
    modifies block.pre, block.post, block.bytes
    ensures nPre == block.pre.Length && nPost == block.post.Length && itr == block.bytes.Length
    ensures Cells(block.bytes[..], block.pre[..], Assign(Words(line), NoMode).pre)
    ensures Cells(block.bytes[..], block.post[..], Assign(Words(line), NoMode).post)
  {
    ghost var all := Assign(Words(line), NoMode);
    FoundStart(line, all);
    nPre, nPost, itr := CopyAll(line, block, all);
  }

  /** ... where `all` is what the parser has to find. */
  method CopyAll(line: Str, block: Block, ghost all: Deps) returns (nPre: nat, nPost: nat, itr: nat)
    requires block.pre != block.post && Deps([], []) in Finds(line, 0, 0, false, NoMode, all)
    requires Counts(block.pre.Length, block.post.Length, block.bytes.Length) == CountsOf(all)
    modifies block.pre, block.post, block.bytes
    ensures nPre == block.pre.Length && nPost == block.post.Length && itr == block.bytes.Length
    ensures Cells(block.bytes[..], block.pre[..], all.pre) && Cells(block.bytes[..], block.post[..], all.post)
  {
    var p: nat, s: nat, wasSpace, mode := 0, 0, false, NoMode;
    nPre, nPost, itr := 0, 0, 0;
    ghost var d := Deps([], []);
    while true
      invariant p <= s <= |line| && d in Finds(line, p, s, wasSpace, mode, all)
      invariant nPre <= block.pre.Length && nPost <= block.post.Length && itr <= block.bytes.Length
      invariant d in Copies(block.bytes[..itr], block.pre[..nPre], block.post[..nPost])
      decreases |line| - s
    {
      var moved;
      moved, p, s, wasSpace := Step(line, p, s, wasSpace, mode, d, all);
      if moved {
        continue;
      }
      mode, nPre, nPost, itr, d := CopyWord(line, p, s, wasSpace, mode, block, nPre, nPost, itr, d, all);
      if s == |line| {
        CopiedAll(block, nPre, nPost, itr, all);
        return;
      }
      wasSpace, p, s := true, s + 1, s + 1;
    }
  }

  lemma CopiedAll(block: Block, nPre: nat, nPost: nat, itr: nat, all: Deps)
    requires Counts(block.pre.Length, block.post.Length, block.bytes.Length) == CountsOf(all)
    requires nPre <= block.pre.Length && nPost <= block.post.Length && itr <= block.bytes.Length
    requires all in Copies(block.bytes[..itr], block.pre[..nPre], block.post[..nPost])
    ensures nPre == block.pre.Length && nPost == block.post.Length && itr == block.bytes.Length
    ensures Cells(block.bytes[..], block.pre[..], all.pre) && Cells(block.bytes[..], block.post[..], all.post)
  {
    CopiedSize(block.bytes[..itr], block.pre[..nPre], block.post[..nPost], all);
    assert block.bytes[..itr] == block.bytes[..];
    assert block.pre[..nPre] == block.pre[..] && block.post[..nPost] == block.post[..];
  }

  /** The end of a word or of the line. */
  method CopyWord(line: Str, p: nat, s: nat, wasSpace: bool, mode: Mode, block: Block, nPre: nat, nPost: nat, itr: nat,
                  ghost d: Deps, ghost all: Deps)
    returns (mode': Mode, nPre': nat, nPost': nat, itr': nat, ghost d': Deps)
    requires p <= s <= |line| && d in Finds(line, p, s, wasSpace, mode, all)
    requires s < |line| ==> line[s] in SPACES && !wasSpace && p < s
    requires block.pre != block.post && Counts(block.pre.Length, block.post.Length, block.bytes.Length) == CountsOf(all)
    requires nPre <= block.pre.Length && nPost <= block.post.Length && itr <= block.bytes.Length
    requires d in Copies(block.bytes[..itr], block.pre[..nPre], block.post[..nPost])
    modifies block.pre, block.post, block.bytes
    ensures nPre' <= block.pre.Length && nPost' <= block.post.Length && itr' <= block.bytes.Length
    ensures d' in Copies(block.bytes[..itr'], block.pre[..nPre'], block.post[..nPost'])
    ensures s < |line| ==> d' in Finds(line, s + 1, s + 1, true, mode', all)
    ensures s == |line| ==> all == d'
  {
    var t := line[p..s];
    mode', nPre', nPost', itr', d' := mode, nPre, nPost, itr, d;
    Ended(line, p, s, wasSpace, mode, d, t, all);
    if s < |line| || !wasSpace {
      d' := After(d, mode, t);
    }
    if IsMarker(t) {
      mode' := MarkerMode(t);
    } else if s < |line| || !wasSpace {
      CountsNext(d, mode, t);
      WholeCounts(line, s, mode, d', all);
      nPre', nPost', itr' := CopyItem(block, mode, nPre, nPost, itr, t, d);
    }
  }

  method CopyItem(block: Block, mode: Mode, nPre: nat, nPost: nat, itr: nat, t: Str, ghost d: Deps)
    returns (nPre': nat, nPost': nat, itr': nat)
    requires block.pre != block.post
    requires nPre <= block.pre.Length && nPost <= block.post.Length && itr <= block.bytes.Length
    requires d in Copies(block.bytes[..itr], block.pre[..nPre], block.post[..nPost])
    requires var c := CountsOf(Put(d, mode, t));
             c.pre <= block.pre.Length && c.post <= block.post.Length && c.bytes <= block.bytes.Length
    modifies block.pre, block.post, block.bytes
    ensures nPre' <= block.pre.Length && nPost' <= block.post.Length && itr' <= block.bytes.Length
    ensures Put(d, mode, t) in Copies(block.bytes[..itr'], block.pre[..nPre'], block.post[..nPost'])
  {
    nPre', nPost', itr' := nPre, nPost, itr;
    CountsNext(d, mode, t);
    if mode != NoMode {
      ghost var bytes, pre, post := block.bytes[..itr], block.pre[..nPre], block.post[..nPost];
      CopiedNext(bytes, pre, post, d, mode, t);
      CopiedSize(bytes, pre, post, d);
      if mode == PreMode {
        SetPointer(block.pre, nPre, itr);
        nPre' := nPre + 1;
        assert block.pre[..nPre'] == pre + [|bytes|] && block.post[..nPost'] == post;
      } else {
        SetPointer(block.post, nPost, itr);
        nPost' := nPost + 1;
        assert block.pre[..nPre'] == pre && block.post[..nPost'] == post + [|bytes|];
      }
      Store(block.bytes, itr, t);
      itr' := itr + |t| + 1;
      assert block.bytes[..itr'] == bytes + (t + [0]);
    }
  }

  lemma CopiedSize(b: seq<Byte>, pre: seq<nat>, post: seq<nat>, d: Deps)
    requires d in Copies(b, pre, post)
    ensures CountsOf(d) == Counts(|pre|, |post|, |b|)
  {
  }

  method SetPointer(ptrs: array<nat>, n: nat, at: nat)
    requires n < ptrs.Length
    modifies ptrs
    ensures ptrs[..n + 1] == old(ptrs[..n]) + [at]
  {
    ptrs[n] := at;
  }

  // ----- the size of the block

  /** Of a size_t, of a pointer and of struct kmod_softdep, on machines with 64-bit addresses. */
  const SIZE_MAX := 0xFFFF_FFFF_FFFF_FFFF
  const POINTER_SIZE := 8
  const HEAD_SIZE := 32

  /** uaddsz_overflow */
  function CheckedAdd(a: Option<nat>, b: Option<nat>): Option<nat> {
    if a.None? || b.None? || a.value > SIZE_MAX || SIZE_MAX - a.value < b.value then None else Some(a.value + b.value)
  }

  /** umulsz_overflow, for the size of a pointer */
  function CheckedPointers(n: nat): Option<nat> {
    if n != 0 && SIZE_MAX / n < POINTER_SIZE then None else Some(n * POINTER_SIZE)
  }

  function BlockSize(modname: Str, c: Counts): nat {
    HEAD_SIZE + |modname| + 1 + POINTER_SIZE * c.pre + POINTER_SIZE * c.post + c.bytes
  }

  /** The chain of overflow checks: it ends with the size exactly if that fits. */
  method Allocation(modname: Str, c: Counts) returns (size: Option<nat>)
    ensures size == if BlockSize(modname, c) <= SIZE_MAX then Some(BlockSize(modname, c)) else None
  {
    PointersFit(c.pre);
    PointersFit(c.post);
    size := CheckedAdd(Some(HEAD_SIZE), Some(|modname| + 1));
    size := CheckedAdd(size, CheckedPointers(c.pre));
    size := CheckedAdd(size, CheckedPointers(c.post));
    size := CheckedAdd(size, Some(c.bytes));
  }

  lemma PointersFit(n: nat)
    ensures CheckedPointers(n) == if POINTER_SIZE * n <= SIZE_MAX then Some(POINTER_SIZE * n) else None
  {
    if n != 0 {
      var q := SIZE_MAX / n;
      assert SIZE_MAX == n * q + SIZE_MAX % n;
      if q < POINTER_SIZE {
        Product(n, q + 1, POINTER_SIZE);
      } else {
        Product(n, POINTER_SIZE, q);
      }
    }
  }

  lemma Product(n: nat, a: nat, b: nat)
    requires a <= b
    ensures n * a <= n * b
  {
  }

  /**
   kmod_config_add_softdep: both passes, with the block between them; an error if the words are too many to count, or
   the block is too large. What is stored are the words behind each marker, in order.
   */
  method AddSoftdep(modname: Str, line: Str) returns (err: int, name: array<Byte>, block: Block)
    ensures var ws := Words(line);
            var pre, post := Chosen(ws, PRE, |ws|), Chosen(ws, POST, |ws|);
            && err == AddError(modname, CountsOf(Deps(pre, post)))
            && (err == 0 ==> name[..] == modname + [0])
            && (err == 0 ==> Cells(block.bytes[..], block.pre[..], pre) && Cells(block.bytes[..], block.post[..], post))
  {
    AssignedByPosition(Words(line));
    ghost var ws := Words(line);
    err, name, block := AddAll(modname, line, Deps(Chosen(ws, PRE, |ws|), Chosen(ws, POST, |ws|)));
  }

  function AddError(modname: Str, c: Counts): int {
    if !Countable(c) then -EINVAL else if BlockSize(modname, c) > SIZE_MAX then -ENOMEM else 0
  }

  /** ... where `all` is what the parser has to find. */
  method AddAll(modname: Str, line: Str, ghost all: Deps) returns (err: int, name: array<Byte>, block: Block)
    requires all == Assign(Words(line), NoMode)
    ensures err == AddError(modname, CountsOf(all)) && (err == 0 ==> name[..] == modname + [0])
    ensures err == 0 ==> Cells(block.bytes[..], block.pre[..], all.pre)
    ensures err == 0 ==> Cells(block.bytes[..], block.post[..], all.post)
  {
    var c := Count(line);
    err := -EINVAL;
    if c.Some? {
      var size := Allocation(modname, c.value);
      err := if size.None? then -ENOMEM else 0;
    }
    var counts := if err == 0 then c.value else Counts(0, 0, 0);
    name := new Byte[|modname| + 1](i => if 0 <= i < |modname| then modname[i] else 0);
    block := NewBlock(counts);
    if err == 0 {
      var nPre, nPost, itr := Copy(line, block);
    }
  }

  method NewBlock(c: Counts) returns (block: Block)
    ensures fresh(block.pre) && fresh(block.post) && fresh(block.bytes) && block.pre != block.post
    ensures Counts(block.pre.Length, block.post.Length, block.bytes.Length) == c
  {
    var pre := new nat[c.pre](_ => 0);
    var post := new nat[c.post](_ => 0);
    var bytes := new Byte[c.bytes](_ => 0);
    block := Block(pre, post, bytes);
  }

  // ----- what a line means

  /** A single white space character at the start ends up in the first word. */
  lemma FirstWord(line: Str)
    requires OneLeading(line)
    ensures TokensFrom(line, 0, SPACES) != []
    ensures var ts := TokensFrom(line, 0, SPACES); Words(line) == [[line[0]] + ts[0]] + ts[1..]
  {
    var e := TokenEnd(line, 1, SPACES);
    SkipUnique(line, 0, SPACES, 1);
    assert line[..e] == [line[0]] + line[1..e];
  }

  /** In a line of words the parser sees these words, unless a single white space character stands in front. */
  lemma {:induction false} LineWords(gaps: seq<Str>, ts: seq<Str>)
    requires |gaps| == |ts| + 1 && AreGaps(gaps, SPACES) && AreTokens(ts, SPACES) && ts != []
    ensures |gaps[0]| != 1 ==> Words(Spaced(gaps, ts)) == ts
    ensures |gaps[0]| == 1 ==> Words(Spaced(gaps, ts)) == [gaps[0] + ts[0]] + ts[1..]
  {
    var line := Spaced(gaps, ts);
    SpacedTokens(gaps, ts, SPACES);
    assert line == gaps[0] + ts[0] + Spaced(gaps[1..], ts[1..]);
    assert forall k :: 0 <= k < |gaps[0]| ==> line[k] == gaps[0][k];
    assert line[|gaps[0]|] == ts[0][0];
    assert OneLeading(line) <==> |gaps[0]| == 1;
    if OneLeading(line) {
      FirstWord(line);
      assert gaps[0] == [line[0]];
    }
  }

  function Total(d: Deps): nat {
    |d.pre| + |d.post|
  }

  /** In a mode, at least as many words are kept as before any marker. */
  lemma {:induction false} KeptMore(ts: seq<Str>, mode: Mode)
    ensures Total(Assign(ts, NoMode)) <= Total(Assign(ts, mode))
  {
    if ts != [] && !IsMarker(ts[0]) {
      KeptMore(ts[1..], mode);
    }
  }

  /** The line starts with one white space character, a marker, and a word that is not a marker. */
  predicate MarkerLost(line: Str) {
    var ts := TokensFrom(line, 0, SPACES);
    OneLeading(line) && |ts| > 1 && IsMarker(ts[0]) && !IsMarker(ts[1])
  }

  /** The parser partitions the tokens of the line by marker, except when that white space hides the first marker. */
  lemma ParsedIff(line: Str)
    ensures Assign(Words(line), NoMode) == Assign(TokensFrom(line, 0, SPACES), NoMode) <==> !MarkerLost(line)
  {
    if OneLeading(line) {
      var ts := TokensFrom(line, 0, SPACES);
      FirstWord(line);
      var first := [line[0]] + ts[0];
      assert !IsMarker(first) by {
        assert first[0] == line[0];
      }
      var words := [first] + ts[1..];
      assert words[1..] == ts[1..];
      assert Assign(words, NoMode) == Assign(ts[1..], NoMode);
      if IsMarker(ts[0]) && |ts| > 1 {
        FirstKept(ts[1..], MarkerMode(ts[0]));
      }
    }
  }

  /** A first word is kept in a mode and dropped without; a marker sets the mode either way. */
  lemma FirstKept(ts: seq<Str>, mode: Mode)
    requires ts != [] && mode != NoMode
    ensures Assign(ts, NoMode) == Assign(ts, mode) <==> IsMarker(ts[0])
  {
    if !IsMarker(ts[0]) {
      KeptMore(ts[1..], mode);
      assert Total(Assign(ts, mode)) > Total(Assign(ts, NoMode));
    }
  }

  /** " pre: w": the dependency is lost, whatever the word; without the first character it would be kept. */
  lemma {:induction false} HiddenMarker(w: Str)
    requires IsToken(w, SPACES) && !IsMarker(w)
    ensures var line := [SPACE] + PRE + [SPACE] + w;
            && MarkerLost(line)
            && Assign(Words(line), NoMode) == Deps([], [])
            && Assign(TokensFrom(line, 0, SPACES), NoMode) == Deps([w], [])
  {
    var line := [SPACE] + PRE + [SPACE] + w;
    TwoTokens(line, PRE, w, SPACES, SPACE);
    assert line[1] == PRE[0];
    FirstWord(line);
    assert Words(line) == [[SPACE] + PRE, w];
    OneDependency([SPACE] + PRE, w);
    OneDependency(PRE, w);
  }

  /** Two words with a separator in front of each. */
  lemma {:induction false} TwoTokens(line: Str, a: Str, b: Str, sep: set<Byte>, c: Byte)
    requires line == [c] + a + [c] + b && IsToken(a, sep) && IsToken(b, sep) && c in sep
    ensures TokensFrom(line, 0, sep) == [a, b]
  {
    Slices(line, a, b, c);
    TokenAt(line, 0, 1 + |a|, a, sep);
    TokenAt(line, 1 + |a|, |line|, b, sep);
    assert TokensFrom(line, |line|, sep) == [];
  }

  lemma Slices(line: Str, a: Str, b: Str, c: Byte)
    requires line == [c] + a + [c] + b
    ensures |line| == 2 + |a| + |b| && line[0] == c && line[1 + |a|] == c
    ensures line[1..1 + |a|] == a && line[2 + |a|..|line|] == b
  {
  }

  lemma {:induction false} TokenAt(line: Str, i: nat, e: nat, t: Str, sep: set<Byte>)
    requires i < e <= |line| && line[i] in sep && line[i + 1..e] == t && IsToken(t, sep)
    requires e < |line| ==> line[e] in sep
    ensures TokensFrom(line, i, sep) == [t] + TokensFrom(line, e, sep)
  {
    NextToken(line, i, sep, t);
  }

  /** Two words: the second is kept exactly if the first is a marker. */
  lemma {:induction false} OneDependency(first: Str, w: Str)
    requires !IsMarker(w) && first != POST
    ensures Assign([first, w], NoMode) == Deps(if first == PRE then [w] else [], [])
  {
    var ts := [first, w];
    assert ts[1..] == [w] && [w][1..] == [];
    assert Assign([w], NoMode) == Deps([], []) && Assign([w], PreMode) == Deps([w] + [], []);
    assert [w] + [] == [w];
  }
}
