/**
 From dependencies to load order: depmod sorts the modules and writes each one's dependency line into an index file,
 libkmod looks the lines up, reads them back and builds the list of modules to insert.
 */
module Pipeline {
  import opened Text
  import opened PatriciaTrie
  import opened Layout
  import opened Graphs
  import opened Tokens
  import opened Depline
  import Depmod
  import Closure
  import IndexLaws
  import MmReader
  import opened ProbeState
  import opened ProbeList
  import opened Insertion

  /** Installed modules: paths below the module directory, names that follow from them. */
  datatype Tree = Tree(dir: Str, paths: seq<Str>, names: seq<Str>)

  predicate IsTree(tree: Tree) {
    && |tree.names| == |tree.paths| < 0x1_0000_0000 && |tree.dir| + 2 < PATH_MAX
    && (forall i, j :: 0 <= i < j < |tree.names| ==> tree.names[i] != tree.names[j])
    && (forall i :: 0 <= i < |tree.paths| ==> IsInstalled(tree, i))
  }

  predicate IsInstalled(tree: Tree, i: nat)
    requires i < |tree.paths| == |tree.names|
  {
    && IsCString(tree.paths[i]) && IsToken(tree.paths[i], BLANKS) && COLON !in tree.paths[i]
    && ModuleName(tree.paths[i]) == Some(tree.names[i]) && IsAscii(tree.names[i])
    && PathJoin(tree.dir, tree.paths[i]).Some?
  }

  function PathsOf(tree: Tree, ms: seq<nat>): (r: seq<Str>)
    requires Below(ms, |tree.paths|)
    ensures |r| == |ms| && forall i :: 0 <= i < |ms| ==> r[i] == tree.paths[ms[i]]
  {
    if ms == [] then [] else PathsOf(tree, ms[..|ms| - 1]) + [tree.paths[ms[|ms| - 1]]]
  }

  /** The line for module `i` with the dependencies `ms`. */
  function LineOf(tree: Tree, i: nat, ms: seq<nat>): Str
    requires i < |tree.paths| && Below(ms, |tree.paths|)
  {
    Render(tree.paths[i], PathsOf(tree, ms))
  }

  /** `h` holds one entry for each of the first `n` modules: its name, its line, its number as priority. */
  ghost predicate Lines(tree: Tree, closures: seq<seq<nat>>, h: seq<Entry>) {
    && |h| == |closures| <= |tree.paths| == |tree.names|
    && forall i :: 0 <= i < |h| ==>
        Below(closures[i], |tree.paths|) && h[i] == Entry(tree.names[i], Value(LineOf(tree, i, closures[i]), i))
  }

  // ----- depmod

  lemma {:induction false} TailCString(deps: seq<Str>)
    requires forall i :: 0 <= i < |deps| ==> IsCString(deps[i])
    ensures IsCString(Tail(deps))
  {
    if deps != [] {
      TailCString(deps[1..]);
    }
  }

  lemma LinesValid(tree: Tree, closures: seq<seq<nat>>, h: seq<Entry>)
    requires IsTree(tree) && Lines(tree, closures, h)
    ensures ValidEntries(h)
  {
    forall i | 0 <= i < |h| ensures IsAscii(h[i].key) && ValidValue(h[i].value) {
      assert IsInstalled(tree, i);
      forall k | 0 <= k < |closures[i]| ensures IsCString(PathsOf(tree, closures[i])[k]) {
        assert IsInstalled(tree, closures[i][k]);
      }
      TailCString(PathsOf(tree, closures[i]));
    }
  }

  /** The sorted dependencies of every module, as `closures` lists them. */
  ghost predicate AreClosures(g: Graph, idx: seq<int>, closures: seq<seq<nat>>) {
    |closures| <= |g| && forall i :: 0 <= i < |closures| ==> Closure.IsClosure(g, idx, i, closures[i])
  }

  /** output_deps_bin */
  method OutputDeps(tree: Tree, g: Graph, idx: seq<int>)
    returns (file: Str, h: seq<Entry>, ghost closures: seq<seq<nat>>)
    requires IsTree(tree) && IsGraph(g) && |g| == |idx| == |tree.paths| && Depmod.IsNumbering(idx)
    ensures AreClosures(g, idx, closures) && |closures| == |g| && Lines(tree, closures, h) && ValidEntries(h)
    ensures file == FileImage(BuildIndex(h))
  {
    closures, h := [], [];
    var i := 0;
    while i < |g|
      invariant i <= |g| && |closures| == i
      invariant AreClosures(g, idx, closures) && Lines(tree, closures, h)
    {
      var deps := Closure.AllSortedDependencies(g, idx, i);
      h := h + [Entry(tree.names[i], Value(LineOf(tree, i, deps), i))];
      closures := closures + [deps];
      i := i + 1;
    }
    LinesValid(tree, closures, h);
    var duplicates;
    file, duplicates := IndexLaws.WriteIndex(h);
  }

  // ----- libkmod

  /** Every module's name was inserted once. */
  lemma OneLine(tree: Tree, closures: seq<seq<nat>>, h: seq<Entry>, i: nat)
    requires IsTree(tree) && Lines(tree, closures, h) && i < |h|
    ensures ValuesOf(h, tree.names[i]) == [h[i].value]
  {
    OneEntry(tree.names, h, i);
  }

  lemma {:induction false} OneEntry(names: seq<Str>, h: seq<Entry>, i: nat)
    requires |h| <= |names| && i < |names| && forall k :: 0 <= k < |h| ==> h[k].key == names[k]
    requires forall j, k :: 0 <= j < k < |names| ==> names[j] != names[k]
    ensures ValuesOf(h, names[i]) == if i < |h| then [h[i].value] else []
    decreases |h|
  {
    if h != [] {
      OneEntry(names, h[..|h| - 1], i);
    }
  }

  /** The number of the module with this name. */
  function Find(names: seq<Str>, name: Str): (r: Option<nat>)
    ensures r.Some? ==> r.value < |names| && names[r.value] == name
    ensures r.None? ==> name !in names
  {
    if names == [] then None
    else if names[|names| - 1] == name then Some(|names| - 1)
    else Find(names[..|names| - 1], name)
  }

  /** The module that a path leads to, by its name. */
  function InPool(tree: Tree): Str -> Option<nat> {
    (path: Str) =>
      match ModuleName(path)
      case None => None
      case Some(name) => Find(tree.names, name)
  }

  /** An installed module is found by its path. */
  lemma {:induction false} FoundInPool(tree: Tree, m: nat)
    requires IsTree(tree) && m < |tree.paths|
    ensures Made(tree.dir, InPool(tree), tree.paths[m]) == Some(m)
  {
    assert IsInstalled(tree, m);
    JoinKeepsName(tree.dir, tree.paths[m]);
    FindOwn(tree.names, m);
  }

  lemma {:induction false} FindOwn(names: seq<Str>, m: nat)
    requires m < |names| && forall i, j :: 0 <= i < j < |names| ==> names[i] != names[j]
    ensures Find(names, names[m]) == Some(m)
  {
    assert names[m] in names;
  }

  lemma InstalledPaths(tree: Tree, ms: seq<nat>)
    requires IsTree(tree) && Below(ms, |tree.paths|)
    ensures AreTokens(PathsOf(tree, ms), BLANKS) && AllMade(tree.dir, InPool(tree), PathsOf(tree, ms))
  {
    forall k | 0 <= k < |ms|
      ensures IsToken(PathsOf(tree, ms)[k], BLANKS) && Made(tree.dir, InPool(tree), PathsOf(tree, ms)[k]).Some?
    {
      assert IsInstalled(tree, ms[k]);
      FoundInPool(tree, ms[k]);
    }
  }

  /** The modules of a list's paths: the list itself, last first. */
  lemma {:induction false} MadeBack(tree: Tree, ms: seq<nat>)
    requires IsTree(tree) && Below(ms, |tree.paths|) && AllMade(tree.dir, InPool(tree), PathsOf(tree, ms))
    ensures MadeReversed(tree.dir, InPool(tree), PathsOf(tree, ms)) == Reversed(ms)
  {
    if ms != [] {
      var front, last := ms[..|ms| - 1], ms[|ms| - 1];
      InstalledPaths(tree, front);
      MadeBack(tree, front);
      FoundInPool(tree, last);
      assert PathsOf(tree, ms)[..|ms| - 1] == PathsOf(tree, front);
    }
  }

  /** The dependency list of a module, from its line in the index. */
  method ReadDependencies(tree: Tree, file: Str, i: nat, ghost closures: seq<seq<nat>>, ghost h: seq<Entry>)
    returns (deps: seq<nat>)
    requires IsTree(tree) && Lines(tree, closures, h) && |h| == |tree.paths| && i < |h|
    requires ValidEntries(h) && Fits(BuildIndex(h)) && file == FileImage(BuildIndex(h))
    ensures deps == Reversed(closures[i])
  {
    var line := SearchLine(tree, file, i, closures, h);
    LineRead(tree, i, closures[i]);
    var m := new PoolModule(None);
    m.ParseDepline(line, tree.dir, InPool(tree));
    deps := m.deps;
  }

  /** What libkmod makes of a line that depmod has written. */
  lemma LineRead(tree: Tree, i: nat, ms: seq<nat>)
    requires IsTree(tree) && i < |tree.paths| && Below(ms, |tree.paths|)
    ensures DepsOf(LineOf(tree, i, ms), tree.dir, InPool(tree), false) == Reversed(ms)
  {
    var line := LineOf(tree, i, ms);
    InstalledPaths(tree, ms);
    assert IsInstalled(tree, i);
    RoundTrip(tree.paths[i], PathsOf(tree, ms));
    assert line[..|tree.paths[i]|] == tree.paths[i];
    MadeBack(tree, ms);
  }

  method SearchLine(tree: Tree, file: Str, i: nat, ghost closures: seq<seq<nat>>, ghost h: seq<Entry>)
    returns (line: Str)
    requires IsTree(tree) && Lines(tree, closures, h) && |h| == |tree.paths| && i < |h|
    requires ValidEntries(h) && Fits(BuildIndex(h)) && file == FileImage(BuildIndex(h))
    ensures line == LineOf(tree, i, closures[i])
  {
    var found := MmReader.Search(file, tree.names[i], BuildIndex(h));
    OneLine(tree, closures, h, i);
    BuildLookup(h, tree.names[i]);
    assert AddAll([], [h[i].value]) == [h[i].value];
    line := found.value;
  }

  /** The dependency lists as libkmod has them, from depmod's closures. */
  function ReadBack(closures: seq<seq<nat>>): (r: Graph)
    ensures |r| == |closures| && forall k :: 0 <= k < |r| ==> r[k] == Reversed(closures[k])
  {
    seq(|closures|, k requires 0 <= k < |closures| => Reversed(closures[k]))
  }

  /** Hard dependencies from the closures, soft ones as configured. */
  function ConfigOf(closures: seq<seq<nat>>, soft: seq<Soft>): Config {
    Config(ReadBack(closures), soft)
  }

  // ----- the order

  /** What the lists read back have to do with the graph: all direct and indirect dependencies, the deepest first. */
  lemma ReadBackInOrder(c: Config, g: Graph, idx: seq<int>, closures: seq<seq<nat>>)
    requires IsGraph(g) && Topological(g, idx) && AreClosures(g, idx, closures) && |closures| == |g|
    requires |c.deps| == |g| && forall i :: 0 <= i < |g| ==> c.deps[i] == Reversed(closures[i])
    ensures forall a: nat, b: nat :: Edge(c.deps, a, b) <==> Reaches(g, a, b)
    ensures DepsFirst(c)
  {
    forall a: nat, b: nat ensures Edge(c.deps, a, b) <==> Reaches(g, a, b) {
      if a < |g| {
        assert Closure.IsClosure(g, idx, a, closures[a]);
        ReversedMember(closures[a], b);
      } else if Reaches(g, a, b) {
        ReachesIncreases(g, idx, a, b);
      }
    }
    forall m, k, y: nat | 0 <= m < |c.deps| && 0 <= k < |c.deps[m]| && Edge(c.deps, c.deps[m][k], y)
      ensures y in c.deps[m][..k]
    {
      EntryInOrder(g, idx, m, closures[m], c.deps[m], k, y);
    }
  }

  lemma EntryInOrder(g: Graph, idx: seq<int>, m: nat, closure: seq<nat>, deps: seq<nat>, k: nat, y: nat)
    requires IsGraph(g) && Topological(g, idx) && Closure.IsClosure(g, idx, m, closure) && deps == Reversed(closure)
    requires k < |deps| && Reaches(g, deps[k], y)
    ensures y in deps[..k]
  {
    var n := |closure|;
    Closure.ClosureOrder(g, idx, m, closure, n - 1 - k, y);
    ReversedFront(closure, deps, n - k, y);
  }

  /** What is behind position `i` comes in front, reversed. */
  lemma ReversedFront(s: seq<nat>, r: seq<nat>, i: nat, y: nat)
    requires |r| == |s| && (forall k :: 0 <= k < |r| ==> r[k] == s[|s| - 1 - k]) && i <= |s| && y in s[i..]
    ensures y in r[..|s| - i]
  {
    var j := InSuffix(s, i, y);
    InPrefix(r, |s| - 1 - j, |s| - i);
  }

  lemma InSuffix(s: seq<nat>, i: nat, y: nat) returns (j: nat)
    requires i <= |s| && y in s[i..]
    ensures i <= j < |s| && s[j] == y
  {
    var k :| 0 <= k < |s[i..]| && s[i..][k] == y;
    j := i + k;
  }

  lemma InPrefix(r: seq<nat>, k: nat, n: nat)
    requires k < n <= |r|
    ensures r[k] in r[..n]
  {
    assert r[..n][k] == r[k];
  }

  lemma ReversedMember(s: seq<nat>, x: nat)
    ensures x in s <==> x in Reversed(s)
  {
    if x in s {
      var i :| 0 <= i < |s| && s[i] == x;
      assert Reversed(s)[|s| - 1 - i] == x;
    }
    if x in Reversed(s) {
      var i :| 0 <= i < |s| && Reversed(s)[i] == x;
      assert s[|s| - 1 - i] == x;
    }
  }

  /** Every occurrence of a module stands behind all its direct and indirect dependencies that are not skipped. */
  ghost predicate LoadOrder(g: Graph, list: seq<nat>, skipped: set<nat>) {
    forall i, y: nat :: 0 <= i < |list| && Reaches(g, list[i], y) && y !in skipped ==> y in list[..i]
  }

  /** The configuration that libkmod reads; its hard dependencies are all the dependencies there are, deepest first. */
  method ReadConfig(tree: Tree, file: Str, soft: seq<Soft>,
                    ghost g: Graph, ghost idx: seq<int>, ghost closures: seq<seq<nat>>, ghost h: seq<Entry>)
    returns (c: Config)
    requires IsTree(tree) && IsGraph(g) && Topological(g, idx) && AreClosures(g, idx, closures)
    requires |g| == |closures| == |tree.paths| == |soft| && SoftsBelow(soft, |g|)
    requires Lines(tree, closures, h) && ValidEntries(h) && Fits(BuildIndex(h)) && file == FileImage(BuildIndex(h))
    ensures c == ConfigOf(closures, soft) && IsConfig(c) && DepsFirst(c)
    ensures forall a: nat, b: nat :: Edge(c.deps, a, b) <==> Reaches(g, a, b)
  {
    var deps := ReadAll(tree, file, closures, h);
    c := Config(deps, soft);
    ReadBackInOrder(c, g, idx, closures);
    ListsBelow(g, idx, closures, deps);
  }

  /**
   The list of modules to insert, from the index file of an acyclic graph, for any soft dependencies:
   in load order, with the module asked for and all it needs.
   */
  method ProbeFromIndex(tree: Tree, file: Str, soft: seq<Soft>, mod: nat, ignore: bool,
                        ghost g: Graph, ghost idx: seq<int>, ghost closures: seq<seq<nat>>, ghost h: seq<Entry>)
    returns (err: int, list: seq<nat>, ghost visits: seq<nat>)
    requires IsTree(tree) && IsGraph(g) && Topological(g, idx) && AreClosures(g, idx, closures)
    requires |g| == |closures| == |tree.paths| == |soft| && mod < |g| && SoftsBelow(soft, |g|)
    requires Lines(tree, closures, h) && ValidEntries(h) && Fits(BuildIndex(h)) && file == FileImage(BuildIndex(h))
    ensures IsListFor(ConfigOf(closures, soft), mod, ignore, err, visits, list)
    ensures err == 0 ==> LoadOrder(g, list, {}) && mod in list
  {
    var c := ReadConfig(tree, file, soft, g, idx, closures, h);
    err, list, visits := ProbeOrdered(c, mod, ignore, g);
  }

  /** The result of building a list: it and its visits, or the error of a lookup. */
  ghost predicate IsListFor(c: Config, mod: nat, ignore: bool, err: int, visits: seq<nat>, list: seq<nat>) {
    && IsConfig(c) && err <= 0 && (err == 0 <==> Answerable(c, Skip(mod, ignore), mod))
    && (err < 0 ==> list == [] && FailsWith(c, Skip(mod, ignore), mod, err))
    && (err == 0 ==> IsProbeList(c, mod, ignore, visits, list))
  }

  method ProbeOrdered(c: Config, mod: nat, ignore: bool, ghost g: Graph)
    returns (err: int, list: seq<nat>, ghost visits: seq<nat>)
    requires IsConfig(c) && DepsFirst(c) && mod < |c.deps|
    requires forall a: nat, b: nat :: Edge(c.deps, a, b) <==> Reaches(g, a, b)
    ensures IsListFor(c, mod, ignore, err, visits, list)
    ensures err == 0 ==> LoadOrder(g, list, {}) && mod in list
  {
    var prober := new Prober(c);
    err := prober.ProbeListOf(mod, ignore);
    list, visits := prober.list, prober.visits;
    if err == 0 {
      OrderFromLists(c, g, list, {});
    }
  }

  // ----- loading

  /** The module and all its direct and indirect dependencies are loaded, except for those that the filter skips. */
  ghost predicate AllLoaded(g: Graph, q: Request, l: Loop, answers: seq<Answer>)
    requires Answers(l, answers)
  {
    forall y: nat :: y == q.mod || Reaches(g, q.mod, y) ==> (y in Loaded(l, answers, |l.list|) <==> y !in Skipped(q))
  }

  /** No required module is tried before all its direct and indirect dependencies that are not skipped are loaded. */
  ghost predicate TriedInOrder(g: Graph, q: Request, l: Loop, answers: seq<Answer>)
    requires Answers(l, answers)
  {
    forall k: nat, y: nat ::
      && k < |l.list| && k <= FirstDecisive(l, answers, 0) && l.list[k] in l.required
      && Reaches(g, l.list[k], y) && y !in Skipped(q)
      ==> y in Loaded(l, answers, k)
  }

  /** The list of a run is the probe list of the configuration, filtered. */
  ghost predicate FromProbeList(c: Config, q: Request, list: seq<nat>)
    requires IsConfig(c)
  {
    exists visits, full ::
      IsProbeList(c, q.mod, q.flags.ignoreCommand, visits, full) && list == Without(full, Skipped(q))
  }

  /** A run of the loop over the list, under the flags of the request: required is what the module needs. */
  ghost predicate IsRunFor(g: Graph, c: Config, q: Request, l: Loop)
    requires IsConfig(c)
  {
    && FromProbeList(c, q, l.list) && q.mod in l.list && l.mod == q.mod
    && l.ignoreLoaded == q.flags.ignoreLoaded && l.failOnLoaded == q.flags.failOnLoaded
    && (forall y: nat :: y in l.required <==> y == q.mod || Reaches(g, q.mod, y))
  }

  /**
   What a call to load a module promises, in terms of the dependency graph `g`, the configuration `c` that libkmod
   reads and the answers of the kernel to the entries of the list.
   */
  ghost predicate Loads(g: Graph, c: Config, q: Request, kernel: nat -> Answer,
                        err: int, l: Loop, answers: seq<Answer>)
  {
    && IsConfig(c) && Answers(l, answers) && answers == FirstAnswers(kernel, |l.list|)
    && (Early(q).Some? ==> err == Early(q).value && l.list == [])
    && (Early(q).None? ==> (l.list != [] <==> Answerable(c, Skip(q.mod, q.flags.ignoreCommand), q.mod)))
    && (Early(q).None? && l.list == [] ==> err < 0 && FailsWith(c, Skip(q.mod, q.flags.ignoreCommand), q.mod, err))
    && (!q.flags.ignoreLoaded && q.mod in q.live ==> err == if q.flags.failOnLoaded then -EEXIST else 0)
    && (l.list != [] ==> IsRunFor(g, c, q, l) && err == Verdict(l, answers) && Judged(l, answers, err))
    && (Early(q).None? && err == 0 ==> AllLoaded(g, q, l, answers))
    && LoadOrder(g, l.list, Skipped(q)) && TriedInOrder(g, q, l, answers)
  }

  /**
   The same with the insertion loop behind it: a result of 0 means that the module and all its direct and indirect
   dependencies are loaded, and no required module is tried before all of its own are.
   */
  method LoadFromIndex(tree: Tree, file: Str, soft: seq<Soft>, q: Request, kernel: nat -> Answer,
                       ghost g: Graph, ghost idx: seq<int>, ghost closures: seq<seq<nat>>, ghost h: seq<Entry>)
    returns (err: int, l: Loop, answers: seq<Answer>)
    requires IsTree(tree) && IsGraph(g) && Topological(g, idx) && AreClosures(g, idx, closures)
    requires |g| == |closures| == |tree.paths| == |soft| && q.mod < |g| && SoftsBelow(soft, |g|)
    requires Lines(tree, closures, h) && ValidEntries(h) && Fits(BuildIndex(h)) && file == FileImage(BuildIndex(h))
    requires forall k :: kernel(k).inserted <= 0
    ensures Loads(g, ConfigOf(closures, soft), q, kernel, err, l, answers)
  {
    var c := ReadConfig(tree, file, soft, g, idx, closures, h);
    var prober := new Prober(c);
    err, l, answers := ProbeInsert(prober, q, kernel);
    if l.list != [] {
      RunFromLists(c, g, q, l, prober.visits, prober.list);
    }
    if Early(q).None? && err == 0 {
      LoadedFromLists(c, g, q, l, answers);
    }
    TriedFromLists(c, g, q, l, answers);
    OrderFromLists(c, g, l.list, Skipped(q));
  }

  lemma RunFromLists(c: Config, g: Graph, q: Request, l: Loop, visits: seq<nat>, full: seq<nat>)
    requires IsConfig(c) && q.mod < |c.deps| && IsProbeList(c, q.mod, q.flags.ignoreCommand, visits, full)
    requires l == RunOf(q, full, {q.mod} + Elements(c.deps[q.mod])) && q.mod in l.list
    requires forall a: nat, b: nat :: Edge(c.deps, a, b) <==> Reaches(g, a, b)
    ensures IsRunFor(g, c, q, l)
  {
    forall y: nat ensures y in l.required <==> y == q.mod || Reaches(g, q.mod, y) {
      assert Edge(c.deps, q.mod, y) <==> y in c.deps[q.mod];
    }
  }

  lemma LoadedFromLists(c: Config, g: Graph, q: Request, l: Loop, answers: seq<Answer>)
    requires Answers(l, answers) && q.mod < |c.deps|
    requires forall m: nat :: m == q.mod || m in c.deps[q.mod] ==>
      (m in Loaded(l, answers, |l.list|) <==> m !in Skipped(q))
    requires forall a: nat, b: nat :: Edge(c.deps, a, b) <==> Reaches(g, a, b)
    ensures AllLoaded(g, q, l, answers)
  {
    forall y: nat | Reaches(g, q.mod, y) ensures y in c.deps[q.mod] {
      assert Edge(c.deps, q.mod, y);
    }
  }

  lemma TriedFromLists(c: Config, g: Graph, q: Request, l: Loop, answers: seq<Answer>)
    requires IsConfig(c) && DepsFirst(c) && HardFirstBut(c, l.list, Skipped(q)) && Answers(l, answers)
    requires l.mod == q.mod < |c.deps| && (l.list != [] ==> l.required == {q.mod} + Elements(c.deps[q.mod]))
    requires forall a: nat, b: nat :: Edge(c.deps, a, b) <==> Reaches(g, a, b)
    ensures TriedInOrder(g, q, l, answers)
  {
    forall k: nat, y: nat |
      && k < |l.list| && k <= FirstDecisive(l, answers, 0) && l.list[k] in l.required
      && Reaches(g, l.list[k], y) && y !in Skipped(q)
      ensures y in Loaded(l, answers, k)
    {
      RequiredInOrder(c, l, answers, Skipped(q), k, y);
    }
  }

  lemma OrderFromLists(c: Config, g: Graph, list: seq<nat>, skipped: set<nat>)
    requires HardFirstBut(c, list, skipped) && forall a: nat, b: nat :: Edge(c.deps, a, b) <==> Reaches(g, a, b)
    ensures LoadOrder(g, list, skipped)
  {
  }

  predicate SoftsBelow(soft: seq<Soft>, n: nat) {
    forall m :: 0 <= m < |soft| ==>
      match soft[m]
      case Found(pre, post) => Below(pre, n) && Below(post, n)
      case Failed(err) => err < 0
  }

  lemma ListsBelow(g: Graph, idx: seq<int>, closures: seq<seq<nat>>, deps: Graph)
    requires AreClosures(g, idx, closures) && |closures| == |g| == |deps|
    requires forall i :: 0 <= i < |g| ==> deps[i] == Reversed(closures[i])
    ensures forall m :: 0 <= m < |deps| ==> Below(deps[m], |deps|)
  {
    forall m | 0 <= m < |deps| ensures Below(deps[m], |deps|) {
      assert Closure.IsClosure(g, idx, m, closures[m]);
    }
  }

  method ReadAll(tree: Tree, file: Str, ghost closures: seq<seq<nat>>, ghost h: seq<Entry>) returns (deps: Graph)
    requires IsTree(tree) && Lines(tree, closures, h) && |h| == |tree.paths|
    requires ValidEntries(h) && Fits(BuildIndex(h)) && file == FileImage(BuildIndex(h))
    ensures deps == ReadBack(closures)
  {
    deps := [];
    while |deps| < |tree.paths|
      invariant |deps| <= |tree.paths| && ReadSoFar(closures, deps)
    {
      var list := ReadDependencies(tree, file, |deps|, closures, h);
      ReadNext(closures, deps, list);
      deps := deps + [list];
    }
  }

  /** The lists read so far. */
  ghost predicate ReadSoFar(closures: seq<seq<nat>>, deps: Graph) {
    |deps| <= |closures| && forall k :: 0 <= k < |deps| ==> deps[k] == Reversed(closures[k])
  }

  lemma ReadNext(closures: seq<seq<nat>>, deps: Graph, list: seq<nat>)
    requires ReadSoFar(closures, deps) && |deps| < |closures| && list == Reversed(closures[|deps|])
    ensures ReadSoFar(closures, deps + [list])
  {
  }

  /** depmod on a table of modules: the index file of its dependencies, unless they are cyclic. */
  method DepmodRun(tree: Tree, table: Depmod.ModuleTable)
    returns (ok: bool, file: Str, h: seq<Entry>, ghost closures: seq<seq<nat>>)
    requires IsTree(tree) && table.Valid() && |table.deps| == |tree.paths|
    modifies table
    ensures ok <==> Acyclic(old(table.deps))
    ensures ok ==> IsGraph(table.deps) && |table.deps| == |tree.paths| && Topological(table.deps, table.sortIdx)
    ensures forall a: nat, b: nat :: Edge(old(table.deps), a, b) <==> Edge(table.deps, a, b)
    ensures ok ==> AreClosures(table.deps, table.sortIdx, closures) && |closures| == |table.deps|
    ensures ok ==> Lines(tree, closures, h) && ValidEntries(h) && file == FileImage(BuildIndex(h))
  {
    file, h, closures := [], [], [];
    ghost var g := table.deps;
    ok := table.CalculateDependencies();
    if ok {
      Depmod.SameUsers(g, table.sortIdx, table.deps);
      file, h, closures := OutputDeps(tree, table.deps, table.sortIdx);
    }
  }

  lemma ReachesSame(g: Graph, h: Graph, a: nat, b: nat)
    requires (forall x: nat, y: nat :: Edge(g, x, y) <==> Edge(h, x, y)) && Reaches(g, a, b)
    ensures Reaches(h, a, b)
  {
    var p :| |p| > 1 && p[0] == a && p[|p| - 1] == b && IsWalk(g, p);
    forall i | 0 < i < |p| ensures Edge(h, p[i - 1], p[i]) {
      assert Edge(g, p[i - 1], p[i]);
    }
    assert IsWalk(h, p);
  }

  lemma LoadsSame(g: Graph, g': Graph, c: Config, q: Request, kernel: nat -> Answer,
                  err: int, l: Loop, answers: seq<Answer>)
    requires forall x: nat, y: nat :: Edge(g, x, y) <==> Edge(g', x, y)
    requires Loads(g', c, q, kernel, err, l, answers)
    ensures Loads(g, c, q, kernel, err, l, answers)
  {
    forall x: nat, y: nat ensures Reaches(g, x, y) <==> Reaches(g', x, y) {
      if Reaches(g, x, y) {
        ReachesSame(g, g', x, y);
      }
      if Reaches(g', x, y) {
        ReachesSame(g', g, x, y);
      }
    }
    LoadedSame(g, g', q, l, answers);
  }

  lemma LoadedSame(g: Graph, g': Graph, q: Request, l: Loop, answers: seq<Answer>)
    requires Answers(l, answers) && forall x: nat, y: nat :: Reaches(g, x, y) <==> Reaches(g', x, y)
    ensures AllLoaded(g, q, l, answers) == AllLoaded(g', q, l, answers)
    ensures TriedInOrder(g, q, l, answers) == TriedInOrder(g', q, l, answers)
    ensures LoadOrder(g, l.list, Skipped(q)) == LoadOrder(g', l.list, Skipped(q))
  {
  }

  /**
   depmod, then modprobe: from the dependencies recorded in the table, through the file, to the kernel. It works if
   and only if the dependencies are acyclic and the nodes of the index `h` are within reach of the file's offsets;
   then the call keeps its promise with respect to the recorded dependencies.
   */
  method EndToEnd(tree: Tree, table: Depmod.ModuleTable, soft: seq<Soft>, q: Request, kernel: nat -> Answer)
    returns (ok: bool, err: int, l: Loop, answers: seq<Answer>, h: seq<Entry>, ghost closures: seq<seq<nat>>)
    requires IsTree(tree) && table.Valid() && |table.deps| == |tree.paths| == |soft|
    requires q.mod < |soft| && SoftsBelow(soft, |soft|) && forall k :: kernel(k).inserted <= 0
    modifies table
    ensures forall a: nat, b: nat :: Edge(old(table.deps), a, b) <==> Edge(table.deps, a, b)
    ensures Acyclic(old(table.deps)) ==>
      && Topological(table.deps, table.sortIdx) && AreClosures(table.deps, table.sortIdx, closures)
      && |closures| == |tree.paths| && Lines(tree, closures, h) && ValidEntries(h)
    ensures ok <==> Acyclic(old(table.deps)) && Fits(BuildIndex(h))
    ensures ok ==> Loads(old(table.deps), ConfigOf(closures, soft), q, kernel, err, l, answers)
    ensures !ok ==> l.list == []
  {
    err, l, answers := 0, Loop([], q.mod, {}, false, false), [];
    ghost var g := table.deps;
    var file;
    ok, file, h, closures := DepmodRun(tree, table);
    if ok {
      ok := Fits(BuildIndex(h));
      if ok {
        err, l, answers := LoadFromIndex(tree, file, soft, q, kernel, table.deps, table.sortIdx, closures, h);
        LoadsSame(g, table.deps, ConfigOf(closures, soft), q, kernel, err, l, answers);
      }
    }
  }
}
