/** The dependency line of a module: written by depmod into the index, read back by libkmod. */
module Depline {
  import opened Text
  import opened Tokens

  const BLANKS: set<Byte> := {32, 9}
  const PATH_MAX := 4096

  /** Each dependency behind a space. */
  function Tail(deps: seq<Str>): Str {
    if deps == [] then [] else [32] + deps[0] + Tail(deps[1..])
  }

  /** The line of the module at `path`. */
  function Render(path: Str, deps: seq<Str>): Str {
    path + [COLON] + Tail(deps)
  }

  /** Position of the first colon, or the length of the line. */
  function Colon(line: Str): (k: nat)
    ensures k <= |line| && (forall i :: 0 <= i < k ==> line[i] != COLON) && (k < |line| ==> line[k] == COLON)
  {
    TokenEnd(line, 0, {COLON})
  }

  /** The words behind the first colon. */
  function Listed(line: Str): seq<Str>
    requires Colon(line) < |line|
  {
    TokensFrom(line, Colon(line) + 1, BLANKS)
  }

  lemma Shape(front: Str, t: Str, rest: Str, s: Str)
    requires s == front + ([32] + t + rest)
    ensures s == front + [32] + t + rest
    ensures |s| == |front| + 1 + |t| + |rest| && s[|front|] == 32 && s[|front| + 1..|front| + 1 + |t|] == t
    ensures rest != [] ==> s[|front| + 1 + |t|] == rest[0]
  {
    var at := |front| + 1;
    assert |s| == at + |t| + |rest|;
    forall i | 0 <= i < |t| ensures s[at + i] == t[i] {
    }
  }

  lemma TailHead(deps: seq<Str>)
    ensures Tail(deps) != [] ==> Tail(deps)[0] == 32
  {
  }

  lemma TokenStep(front: Str, t: Str, rest: Str, s: Str, next: Str)
    requires s == front + ([32] + t + rest) && next == front + [32] + t
    requires IsToken(t, BLANKS) && (rest != [] ==> rest[0] == 32)
    ensures s == next + rest && TokensFrom(s, |front|, BLANKS) == [t] + TokensFrom(s, |next|, BLANKS)
  {
    Shape(front, t, rest, s);
    assert |next| == |front| + 1 + |t|;
    assert s[|front|] in BLANKS && (|next| < |s| ==> s[|next|] in BLANKS);
    NextToken(s, |front|, BLANKS, t);
  }

  lemma {:induction false} TailTokens(front: Str, deps: seq<Str>)
    requires AreTokens(deps, BLANKS)
    ensures TokensFrom(front + Tail(deps), |front|, BLANKS) == deps
    decreases |deps|
  {
    if deps == [] {
      assert front + [] == front;
    } else {
      var t, rest, next := deps[0], Tail(deps[1..]), front + [32] + deps[0];
      TailHead(deps[1..]);
      TokenStep(front, t, rest, front + Tail(deps), next);
      TailTokens(next, deps[1..]);
      assert [t] + deps[1..] == deps;
    }
  }

  lemma ColonOf(path: Str, deps: seq<Str>)
    requires COLON !in path
    ensures Colon(Render(path, deps)) == |path|
  {
    var line := Render(path, deps);
    assert line[|path|] == COLON;
    forall i | 0 <= i < |path| ensures line[i] != COLON {
      assert line[i] == path[i];
    }
    EndUnique(line, 0, {COLON}, |path|);
  }

  /** What depmod writes, libkmod reads. */
  lemma RoundTrip(path: Str, deps: seq<Str>)
    requires COLON !in path && AreTokens(deps, BLANKS)
    ensures Colon(Render(path, deps)) == |path| && Listed(Render(path, deps)) == deps
  {
    ColonOf(path, deps);
    TailTokens(path + [COLON], deps);
  }

  // ----- and when not

  lemma {:induction false} InkedTail(front: Str, deps: seq<Str>, k: nat)
    requires k <= |front| && AreTokens(deps, BLANKS)
    ensures Inked(front + Tail(deps), k, BLANKS) == Inked(front, k, BLANKS) + TotalLength(deps)
  {
    TailTokens(front, deps);
    TokensLength(front + Tail(deps), |front|, BLANKS);
    InkedFront(front, Tail(deps), k);
  }

  lemma {:induction false} InkedFront(front: Str, rest: Str, k: nat)
    requires k <= |front|
    ensures Inked(front + rest, k, BLANKS) == Inked(front, k, BLANKS) + Inked(front + rest, |front|, BLANKS)
    decreases |front| - k
  {
    if k < |front| {
      InkedFront(front, rest, k + 1);
    }
  }

  lemma {:induction false} InkedPositive(s: Str, k: nat, i: nat)
    requires k <= i < |s| && s[i] !in BLANKS
    ensures Inked(s, k, BLANKS) > 0
    decreases i - k
  {
    if k < i {
      InkedPositive(s, k + 1, i);
    }
  }

  /** The line is read back exactly if the path has no colon and the dependencies are words without blanks. */
  lemma RoundTripIff(path: Str, deps: seq<Str>)
    ensures Colon(Render(path, deps)) < |Render(path, deps)|
    ensures Listed(Render(path, deps)) == deps <==> COLON !in path && AreTokens(deps, BLANKS)
  {
    var line := Render(path, deps);
    assert line[|path|] == COLON;
    var k := Colon(line);
    if COLON !in path && AreTokens(deps, BLANKS) {
      RoundTrip(path, deps);
    } else {
      TokensClean(line, k + 1, BLANKS);
      if AreTokens(deps, BLANKS) {
        var front := path + [COLON];
        var i :| 0 <= i < |path| && path[i] == COLON;
        assert line[i] == COLON && k <= i;
        InkedTail(front, deps, k + 1);
        InkedPositive(front, k + 1, |path|);
        TokensLength(line, k + 1, BLANKS);
      }
    }
  }

  /** A path with a colon: its remainder is read as a dependency, though the module has none. */
  lemma {:induction false} ColonSplits(u: Str, v: Str)
    requires COLON !in u && IsToken(v, BLANKS)
    ensures var line := Render(u + [COLON] + v, []); Colon(line) < |line| && Listed(line) == [v + [COLON]]
  {
    var line := u + [COLON] + v + [COLON];
    assert Render(u + [COLON] + v, []) == line;
    ColonParts(u, v, line);
    EndUnique(line, 0, {COLON}, |u|);
    SkipUnique(line, |u| + 1, BLANKS, |u| + 1);
    EndUnique(line, |u| + 1, BLANKS, |line|);
    assert TokensFrom(line, |line|, BLANKS) == [];
  }

  lemma ColonParts(u: Str, v: Str, line: Str)
    requires COLON !in u && IsToken(v, BLANKS) && line == u + [COLON] + v + [COLON]
    ensures |line| == |u| + |v| + 2 && line[|u|] == COLON && line[|u| + 1..] == v + [COLON]
    ensures forall k :: 0 <= k < |u| ==> line[k] != COLON
    ensures forall k :: |u| < k < |line| ==> line[k] !in BLANKS
  {
    forall k | 0 <= k < |u| ensures line[k] != COLON {
      assert line[k] == u[k];
    }
    forall k | |u| < k < |line| ensures line[k] !in BLANKS {
      assert line[k] == if k < |u| + 1 + |v| then v[k - |u| - 1] else COLON;
    }
  }

  // ----- names

  /** What follows the last slash. */
  function Basename(path: Str): Str {
    if SLASH !in path then path
    else if path[|path| - 1] == SLASH then []
    else Basename(path[..|path| - 1]) + [path[|path| - 1]]
  }

  /** Dashes become underscores; the name ends at the first dot, or where the buffer is full. */
  function Normalize(name: Str, room: nat): Str {
    if room == 0 || name == [] || name[0] == DOT then []
    else [if name[0] == DASH then UNDERSCORE else name[0]] + Normalize(name[1..], room - 1)
  }

  /** path_to_modname */
  function ModuleName(path: Str): Option<Str> {
    if Basename(path) == [] then None else Some(Normalize(Basename(path), PATH_MAX - 1))
  }

  /** path_join: absolute paths as they are, others below the directory, nothing if that does not fit */
  function PathJoin(dir: Str, path: Str): Option<Str> {
    if path != [] && path[0] == SLASH then Some(path)
    else if |dir| + 1 + |path| + 1 >= PATH_MAX then None
    else Some(dir + [SLASH] + path)
  }

  lemma {:induction false} BasenameJoin(dir: Str, path: Str)
    ensures Basename(dir + [SLASH] + path) == Basename(path)
    decreases |path|
  {
    var joined := dir + [SLASH] + path;
    assert joined[|dir|] == SLASH;
    if path != [] {
      var front := path[..|path| - 1];
      assert joined[..|joined| - 1] == dir + [SLASH] + front;
      assert joined[|joined| - 1] == path[|path| - 1];
      BasenameJoin(dir, front);
      if path[|path| - 1] != SLASH {
        BasenameFront(path);
      }
    }
  }

  lemma {:induction false} BasenameFront(path: Str)
    requires path != [] && path[|path| - 1] != SLASH
    ensures Basename(path) == Basename(path[..|path| - 1]) + [path[|path| - 1]]
  {
    var front := path[..|path| - 1];
    assert path == front + [path[|path| - 1]];
    assert SLASH in path <==> SLASH in front;
  }

  /** The directory does not matter for the name. */
  lemma JoinKeepsName(dir: Str, path: Str)
    requires PathJoin(dir, path).Some?
    ensures ModuleName(PathJoin(dir, path).value) == ModuleName(path)
  {
    if !(path != [] && path[0] == SLASH) {
      BasenameJoin(dir, path);
    }
  }

  lemma {:induction false} BasenameOf(dir: Str, base: Str)
    requires SLASH !in base
    ensures Basename(dir + [SLASH] + base) == base
  {
    BasenameJoin(dir, base);
  }

  lemma {:induction false} NormalizeAt(name: Str, rest: Str, room: nat)
    requires DOT !in name && |name| <= room && (rest != [] ==> rest[0] == DOT)
    ensures |Normalize(name + rest, room)| == |name|
    ensures forall i :: 0 <= i < |name| ==>
              Normalize(name + rest, room)[i] == if name[i] == DASH then UNDERSCORE else name[i]
    decreases |name|
  {
    if name == [] {
      assert name + rest == rest;
    } else {
      assert name[0] in name;
      assert (name + rest)[1..] == name[1..] + rest;
      NormalizeAt(name[1..], rest, room - 1);
    }
  }

  /** The file dir/name or dir/name.ext is the module `name`, with underscores for dashes. */
  lemma {:induction false} NameOfFile(dir: Str, name: Str, ext: Str)
    requires name != [] && SLASH !in name && DOT !in name && |name| < PATH_MAX
    requires SLASH !in ext && (ext != [] ==> ext[0] == DOT)
    ensures ModuleName(dir + [SLASH] + (name + ext)).Some?
    ensures var m := ModuleName(dir + [SLASH] + (name + ext)).value;
            |m| == |name| && forall i :: 0 <= i < |m| ==> m[i] == if name[i] == DASH then UNDERSCORE else name[i]
  {
    BasenameOf(dir, name + ext);
    NormalizeAt(name, ext, PATH_MAX - 1);
  }

  /** A line with two dependencies, byte by byte. */
  lemma {:induction false} TwoDependencies(path: Str, a: Str, b: Str)
    ensures Render(path, [a, b]) == path + Ascii(": ") + a + Ascii(" ") + b
  {
    assert [a, b][1..] == [b] && [b][1..] == [];
    assert Tail([b]) == [32] + b + [];
    assert Ascii(": ") == [58, 32] && Ascii(" ") == [32];
  }

  // ----- reading a line

  function Reversed<T>(s: seq<T>): (r: seq<T>)
    ensures |r| == |s| && forall i :: 0 <= i < |s| ==> r[i] == s[|s| - 1 - i]
  {
    if s == [] then [] else [s[|s| - 1]] + Reversed(s[..|s| - 1])
  }

  /** The module for a word: its path joined to the directory, and the module that the pool gives for that path. */
  function Made(dir: Str, make: Str -> Option<nat>, word: Str): Option<nat> {
    match PathJoin(dir, word)
    case None => None
    case Some(path) => make(path)
  }

  predicate AllMade(dir: Str, make: Str -> Option<nat>, words: seq<Str>) {
    forall i :: 0 <= i < |words| ==> Made(dir, make, words[i]).Some?
  }

  /** The modules for the words, last first. */
  function MadeReversed(dir: Str, make: Str -> Option<nat>, words: seq<Str>): seq<nat>
    requires AllMade(dir, make, words)
  {
    if words == [] then []
    else [Made(dir, make, words[|words| - 1]).value] + MadeReversed(dir, make, words[..|words| - 1])
  }

  /** The part of kmod_module_parse_depline before the dependencies are read goes well. */
  predicate Readable(line: Str, dir: Str, hasPath: bool) {
    Colon(line) < |line| && |dir| + 2 < PATH_MAX && (hasPath || PathJoin(dir, line[..Colon(line)]).Some?)
  }

  /** The dependency list that a line gives; none on the error paths. */
  function DepsOf(line: Str, dir: Str, make: Str -> Option<nat>, hasPath: bool): seq<nat> {
    if Readable(line, dir, hasPath) && AllMade(dir, make, Listed(line)) then MadeReversed(dir, make, Listed(line))
    else []
  }

  /** A module in libkmod's pool, as far as its line is concerned. */
  class PoolModule {
    var initDep: bool
    var path: Option<Str>
    var deps: seq<nat>

    constructor (path: Option<Str>)
      ensures !initDep && this.path == path && deps == []
    {
      initDep, this.path, deps := false, path, [];
    }

    /**
     kmod_module_parse_depline: the first line read sets the module's own path, unless it has one, and its
     dependencies; later ones are ignored. `make` is kmod_module_new_from_path, nothing where that fails.
     */
    method ParseDepline(line: Str, dir: Str, make: Str -> Option<nat>)
      requires !initDep ==> deps == []
      modifies this
      ensures initDep
      ensures old(initDep) ==> path == old(path) && deps == old(deps)
      ensures !old(initDep) ==> deps == DepsOf(line, dir, make, old(path).Some?)
      ensures !old(initDep) ==>
        path == if old(path).None? && Colon(line) < |line| && |dir| + 2 < PATH_MAX
                then PathJoin(dir, line[..Colon(line)]) else old(path)
    {
      if initDep {
        return;
      }
      initDep := true;
      var colon := Colon(line);
      if colon == |line| || |dir| + 2 >= PATH_MAX {
        return;
      }
      if path.None? {
        path := PathJoin(dir, line[..colon]);
        if path.None? {
          return;
        }
      }
      deps := ReadModules(line, dir, make, colon);
    }
  }

  /** The words become modules, each put in front of the list; one that fails empties it. */
  method ReadModules(line: Str, dir: Str, make: Str -> Option<nat>, colon: nat) returns (deps: seq<nat>)
    requires colon == Colon(line) < |line|
    ensures deps == if AllMade(dir, make, Listed(line)) then MadeReversed(dir, make, Listed(line)) else []
  {
    deps := [];
    var p := colon + 1;
    ghost var words: seq<Str> := [];
    while true
      invariant p <= |line| && AllMade(dir, make, words) && deps == MadeReversed(dir, make, words)
      invariant Listed(line) == words + TokensFrom(line, p, BLANKS)
      decreases |line| - p
    {
      var a := SkipSeparators(line, p, BLANKS);
      if a == |line| {
        assert words + [] == words;
        return;
      }
      var b := TokenEnd(line, a, BLANKS);
      WordsNext(words, line[a..b], TokensFrom(line, b, BLANKS));
      var path := PathJoin(dir, line[a..b]);
      if path.None? {
        return [];
      }
      var m := make(path.value);
      if m.None? {
        return [];
      }
      MadeNext(dir, make, words, line[a..b]);
      words := words + [line[a..b]];
      deps := [m.value] + deps;
      p := b;
    }
  }

  lemma WordsNext(words: seq<Str>, w: Str, rest: seq<Str>)
    ensures words + ([w] + rest) == words + [w] + rest
    ensures (words + ([w] + rest))[|words|] == w
  {
  }

  lemma MadeNext(dir: Str, make: Str -> Option<nat>, words: seq<Str>, w: Str)
    requires AllMade(dir, make, words) && Made(dir, make, w).Some?
    ensures AllMade(dir, make, words + [w])
    ensures MadeReversed(dir, make, words + [w]) == [Made(dir, make, w).value] + MadeReversed(dir, make, words)
  {
    assert (words + [w])[..|words|] == words;
  }
}
