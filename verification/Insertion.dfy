/** The insertion loop over a probe list: what is loaded when it ends, and which failures it forgives. */
module Insertion {
  import opened Text
  import opened Graphs
  import opened ProbeState
  import opened ProbeList

  /** What the kernel answers for one entry: whether the module is live or built in, and the result of inserting it. */
  datatype Answer = Answer(inKernel: bool, inserted: int)

  /** One run of the loop. */
  datatype Loop = Loop(list: seq<nat>, mod: nat, required: set<nat>, ignoreLoaded: bool, failOnLoaded: bool)

  /** Inserting returns 0 or a negative error. */
  predicate Answers(l: Loop, kernel: seq<Answer>) {
    |kernel| == |l.list| && forall k :: 0 <= k < |kernel| ==> kernel[k].inserted <= 0
  }

  function EntryError(l: Loop, kernel: seq<Answer>, k: nat): int
    requires Answers(l, kernel) && k < |l.list|
  {
    if !l.ignoreLoaded && kernel[k].inKernel then -EEXIST else kernel[k].inserted
  }

  /** In the kernel after the attempt: it was inserted now, or it was there. */
  predicate LoadedAt(l: Loop, kernel: seq<Answer>, k: nat)
    requires Answers(l, kernel) && k < |l.list|
  {
    (kernel[k].inKernel && !l.ignoreLoaded) || kernel[k].inserted == 0 || kernel[k].inserted == -EEXIST
  }

  /** The modules known to be loaded after the first `i` entries, nothing being unloaded meanwhile. */
  function Loaded(l: Loop, kernel: seq<Answer>, i: nat): set<nat>
    requires Answers(l, kernel) && i <= |l.list|
  {
    set k | 0 <= k < i && LoadedAt(l, kernel, k) :: l.list[k]
  }

  /** An entry that ends the run: the module itself found loaded when that is an error, or a required module failing. */
  predicate Decisive(l: Loop, kernel: seq<Answer>, k: nat)
    requires Answers(l, kernel) && k < |l.list|
  {
    var e := EntryError(l, kernel, k);
    (e == -EEXIST && l.list[k] == l.mod && l.failOnLoaded) || (l.list[k] in l.required && !LoadedAt(l, kernel, k))
  }

  /** The first entry from `i` on that ends the run. */
  function FirstDecisive(l: Loop, kernel: seq<Answer>, i: nat): (k: nat)
    requires Answers(l, kernel) && i <= |l.list|
    ensures i <= k <= |l.list| && (k < |l.list| ==> Decisive(l, kernel, k))
    ensures forall j :: i <= j < k ==> !Decisive(l, kernel, j)
    decreases |l.list| - i
  {
    if i == |l.list| || Decisive(l, kernel, i) then i else FirstDecisive(l, kernel, i + 1)
  }

  /** The result of the run: the error of the first decisive entry, 0 if there is none. */
  function Verdict(l: Loop, kernel: seq<Answer>): int
    requires Answers(l, kernel)
  {
    var k := FirstDecisive(l, kernel, 0);
    if k < |l.list| then EntryError(l, kernel, k) else 0
  }

  /**
   The answer `a` for module `m` does not end the run: a module that is required must be inserted or already there,
   and being already there must not be an error for the module asked for.
   */
  predicate Harmless(l: Loop, m: nat, a: Answer) {
    && (m in l.required ==> (a.inKernel && !l.ignoreLoaded) || a.inserted == 0 || a.inserted == -EEXIST)
    && (m == l.mod && l.failOnLoaded ==> !(a.inKernel && !l.ignoreLoaded) && a.inserted != -EEXIST)
  }

  /** The result in terms of the answers: 0 exactly if all are harmless, otherwise the error of the first one not so. */
  ghost predicate Judged(l: Loop, kernel: seq<Answer>, err: int)
    requires Answers(l, kernel)
  {
    && (err == 0 <==> forall k :: 0 <= k < |l.list| ==> Harmless(l, l.list[k], kernel[k]))
    && (err != 0 ==>
          exists k ::
            && 0 <= k < |l.list| && !Harmless(l, l.list[k], kernel[k])
            && (forall j :: 0 <= j < k ==> Harmless(l, l.list[j], kernel[j]))
            && err == if kernel[k].inKernel && !l.ignoreLoaded then -EEXIST else kernel[k].inserted)
  }

  lemma VerdictJudged(l: Loop, kernel: seq<Answer>)
    requires Answers(l, kernel)
    ensures Judged(l, kernel, Verdict(l, kernel))
  {
    forall k | 0 <= k < |l.list| ensures Decisive(l, kernel, k) <==> !Harmless(l, l.list[k], kernel[k]) {
      DecisiveIff(l, kernel, k);
    }
    var k := FirstDecisive(l, kernel, 0);
    if k < |l.list| {
      assert !Harmless(l, l.list[k], kernel[k]);
    }
  }

  lemma DecisiveIff(l: Loop, kernel: seq<Answer>, k: nat)
    requires Answers(l, kernel) && k < |l.list|
    ensures Decisive(l, kernel, k) <==> !Harmless(l, l.list[k], kernel[k])
    ensures Decisive(l, kernel, k) ==> EntryError(l, kernel, k) != 0
  {
  }

  /** The loop of kmod_module_probe_insert_module; `reached` is the number of entries before the one that ended it. */
  method InsertAll(l: Loop, kernel: seq<Answer>) returns (err: int, ghost reached: nat)
    requires Answers(l, kernel)
    ensures reached == FirstDecisive(l, kernel, 0) && err == Verdict(l, kernel) && Judged(l, kernel, err)
  {
    VerdictJudged(l, kernel);
    err := 0;
    var i := 0;
    while i < |l.list|
      invariant i <= |l.list| && err == 0
      invariant FirstDecisive(l, kernel, 0) == FirstDecisive(l, kernel, i)
    {
      var m := l.list[i];
      if !l.ignoreLoaded && kernel[i].inKernel {
        err := -EEXIST;
      } else {
        err := kernel[i].inserted;
      }
      if err == -EEXIST && m == l.mod && l.failOnLoaded {
        break;
      }
      if err == -EEXIST || m !in l.required {
        err := 0;
      } else if err < 0 {
        break;
      }
      i := i + 1;
    }
    reached := i;
  }

  // ----- what the result means

  /** A result of 0 means that every required entry is loaded. */
  lemma SuccessLoads(l: Loop, kernel: seq<Answer>, m: nat)
    requires Answers(l, kernel) && Verdict(l, kernel) == 0 && m in l.list && m in l.required
    ensures m in Loaded(l, kernel, |l.list|)
  {
    var k :| 0 <= k < |l.list| && l.list[k] == m;
    assert !Decisive(l, kernel, k);
    assert LoadedAt(l, kernel, k);
  }

  /** Failing entries that are only soft dependencies never change the result. */
  lemma SoftFailuresIgnored(l: Loop, kernel: seq<Answer>, other: seq<Answer>)
    requires Answers(l, kernel) && Answers(l, other) && l.mod in l.required
    requires forall k :: 0 <= k < |l.list| && l.list[k] in l.required ==> kernel[k] == other[k]
    ensures FirstDecisive(l, kernel, 0) == FirstDecisive(l, other, 0) && Verdict(l, kernel) == Verdict(l, other)
  {
    forall k | 0 <= k < |l.list| ensures Decisive(l, kernel, k) == Decisive(l, other, k) {
      if l.list[k] in l.required {
        assert kernel[k] == other[k];
      }
    }
    var a, b := FirstDecisive(l, kernel, 0), FirstDecisive(l, other, 0);
    assert a == b;
    assert a < |l.list| ==> kernel[a] == other[a];
  }

  // ----- the order

  /** Every occurrence of a module stands behind its hard dependencies, as far as these are not skipped. */
  ghost predicate HardFirstBut(c: Config, list: seq<nat>, skipped: set<nat>) {
    forall i, y: nat :: 0 <= i < |list| && Edge(c.deps, list[i], y) && y !in skipped ==> y in list[..i]
  }

  /**
   No required module is inserted before all its hard dependencies are loaded: at every entry the run gets to,
   the dependencies of a required module whose dependencies are required too have been loaded before.
   */
  lemma DependenciesLoadedBefore(c: Config, l: Loop, kernel: seq<Answer>, skipped: set<nat>, k: nat, y: nat)
    requires IsConfig(c) && HardFirstBut(c, l.list, skipped) && Answers(l, kernel)
    requires k <= FirstDecisive(l, kernel, 0) && k < |l.list|
    requires Edge(c.deps, l.list[k], y) && y in l.required && y !in skipped
    ensures y in Loaded(l, kernel, k)
  {
    assert y in l.list[..k];
    var j :| 0 <= j < k && l.list[j] == y;
    assert !Decisive(l, kernel, j);
    assert LoadedAt(l, kernel, j);
  }

  /** The required modules are closed under hard dependencies, so this holds for every required module of the run. */
  lemma RequiredInOrder(c: Config, l: Loop, kernel: seq<Answer>, skipped: set<nat>, k: nat, y: nat)
    requires IsConfig(c) && DepsFirst(c) && HardFirstBut(c, l.list, skipped) && Answers(l, kernel) && l.mod < |c.deps|
    requires l.required == {l.mod} + Elements(c.deps[l.mod])
    requires k <= FirstDecisive(l, kernel, 0) && k < |l.list| && l.list[k] in l.required
    requires Edge(c.deps, l.list[k], y) && y !in skipped
    ensures y in Loaded(l, kernel, k)
  {
    if l.list[k] != l.mod {
      var j :| 0 <= j < |c.deps[l.mod]| && c.deps[l.mod][j] == l.list[k];
      assert Edge(c.deps, c.deps[l.mod][j], y);
      assert y in c.deps[l.mod][..j];
    }
    DependenciesLoadedBefore(c, l, kernel, skipped, k, y);
  }

  // ----- the blacklist filter

  /** The list without the given modules. */
  function Without(list: seq<nat>, skipped: set<nat>): (r: seq<nat>)
    ensures forall m :: m in r <==> m in list && m !in skipped
  {
    if list == [] then []
    else
      var front, last := list[..|list| - 1], list[|list| - 1];
      assert list == front + [last];
      if last in skipped then Without(front, skipped) else Without(front, skipped) + [last]
  }

  /** kmod_module_apply_filter */
  method ApplyFilter(list: seq<nat>, skipped: set<nat>) returns (r: seq<nat>)
    ensures r == Without(list, skipped)
  {
    r := [];
    for i := 0 to |list|
      invariant r == Without(list[..i], skipped)
    {
      assert list[..i + 1][..i] == list[..i];
      if list[i] in skipped {
        continue;
      }
      r := r + [list[i]];
    }
    assert list[..|list|] == list;
  }

  lemma {:induction false} WithoutInOrder(c: Config, list: seq<nat>, skipped: set<nat>)
    requires HardFirst(c, list)
    ensures HardFirstBut(c, Without(list, skipped), skipped)
  {
    if list != [] {
      var front, last := list[..|list| - 1], list[|list| - 1];
      assert list == front + [last];
      FrontInOrder(c, front, last);
      WithoutInOrder(c, front, skipped);
      OneMore(c, Without(front, skipped), skipped, last);
    }
  }

  lemma FrontInOrder(c: Config, front: seq<nat>, last: nat)
    requires HardFirst(c, front + [last])
    ensures HardFirst(c, front) && forall y: nat :: Edge(c.deps, last, y) ==> y in front
  {
    var all := front + [last];
    forall i, y: nat | 0 <= i < |all| && Edge(c.deps, all[i], y) ensures y in front[..i] {
      assert all[..i] == front[..i];
    }
    assert all[|front|] == last;
  }

  lemma OneMore(c: Config, r: seq<nat>, skipped: set<nat>, last: nat)
    requires HardFirstBut(c, r, skipped) && forall y: nat :: Edge(c.deps, last, y) && y !in skipped ==> y in r
    ensures HardFirstBut(c, r + [last], skipped)
  {
    var all := r + [last];
    forall i, y: nat | 0 <= i < |all| && Edge(c.deps, all[i], y) && y !in skipped ensures y in all[..i] {
      if i < |r| {
        assert all[i] == r[i] && all[..i] == r[..i];
      } else {
        assert all[..i] == r;
      }
    }
  }

  // ----- the whole call

  const PROBE_APPLY_BLACKLIST_ALL := 0x10000
  const PROBE_APPLY_BLACKLIST := 0x20000
  const PROBE_APPLY_BLACKLIST_ALIAS_ONLY := 0x40000

  datatype Flags = Flags(
    ignoreCommand: bool, ignoreLoaded: bool, failOnLoaded: bool,
    blacklistAll: bool, blacklist: bool, blacklistAliasOnly: bool)

  /** What to load, whether it was found through an alias, what is in the kernel when the call starts, the blacklist. */
  datatype Request = Request(mod: nat, alias: bool, live: set<nat>, blacklisted: set<nat>, flags: Flags)

  /** The result of a call that ends before any list is made. */
  function Early(q: Request): Option<int> {
    if !q.flags.ignoreLoaded && q.mod in q.live then Some(if q.flags.failOnLoaded then -EEXIST else 0)
    else if q.mod !in q.blacklisted then None
    else if q.alias && q.flags.blacklistAliasOnly then Some(PROBE_APPLY_BLACKLIST_ALIAS_ONLY)
    else if q.flags.blacklistAll then Some(PROBE_APPLY_BLACKLIST_ALL)
    else if q.flags.blacklist then Some(PROBE_APPLY_BLACKLIST)
    else None
  }

  /** The modules that the filter takes off the list. */
  function Skipped(q: Request): set<nat> {
    if q.flags.blacklistAll then q.blacklisted else {}
  }

  function FirstAnswers(kernel: nat -> Answer, n: nat): (r: seq<Answer>)
    ensures |r| == n && forall k :: 0 <= k < n ==> r[k] == kernel(k)
  {
    if n == 0 then [] else FirstAnswers(kernel, n - 1) + [kernel(n - 1)]
  }

  /** The run over the probe list: what the filter leaves of it, under the flags of the request. */
  function RunOf(q: Request, list: seq<nat>, required: set<nat>): Loop {
    Loop(Without(list, Skipped(q)), q.mod, required, q.flags.ignoreLoaded, q.flags.failOnLoaded)
  }

  /**
   kmod_module_probe_insert_module: checks, probe list, filter, loop; `kernel` answers for the entries of the list.
   A result of 0 from the loop means that the module is loaded, and of its hard dependencies exactly those that the
   filter has left on the list.
   */
  method ProbeInsert(p: Prober, q: Request, kernel: nat -> Answer)
    returns (err: int, l: Loop, answers: seq<Answer>)
    requires IsConfig(p.c) && q.mod < |p.c.deps| && forall k :: kernel(k).inserted <= 0
    modifies p
    ensures Answers(l, answers) && l.mod == q.mod && answers == FirstAnswers(kernel, |l.list|)
    ensures Early(q).Some? ==> err == Early(q).value && l.list == []
    ensures !q.flags.ignoreLoaded && q.mod in q.live ==> err == if q.flags.failOnLoaded then -EEXIST else 0
    ensures Early(q).None? ==> q.mod !in Skipped(q)
    ensures Early(q).None? ==> (l.list != [] <==> Answerable(p.c, Skip(q.mod, q.flags.ignoreCommand), q.mod))
    ensures Early(q).None? && l.list == [] ==>
      err < 0 && FailsWith(p.c, Skip(q.mod, q.flags.ignoreCommand), q.mod, err)
    ensures l.list != [] ==>
      && IsProbeList(p.c, q.mod, q.flags.ignoreCommand, p.visits, p.list)
      && l == RunOf(q, p.list, {q.mod} + Elements(p.c.deps[q.mod])) && q.mod in l.list
      && err == Verdict(l, answers) && Judged(l, answers, err)
    ensures Early(q).None? && err == 0 ==>
      forall m: nat :: m == q.mod || m in p.c.deps[q.mod] ==> (m in Loaded(l, answers, |l.list|) <==> m !in Skipped(q))
    ensures DepsFirst(p.c) ==> HardFirstBut(p.c, l.list, Skipped(q))
    ensures !Kept(p.c, q) ==> Early(q).None? && (l.list != [] ==> LeavesOut(p.c, q, l, answers))
  {
    l, answers := Loop([], q.mod, {}, false, false), [];
    var early := Checks(q);
    if early.Some? {
      return early.value, l, answers;
    }
    err := p.ProbeListOf(q.mod, q.flags.ignoreCommand);
    if err == 0 {
      err, l, answers := ProbeRun(p, q, kernel);
      if !Kept(p.c, q) {
        BrokenRun(p.c, q, l, answers);
      }
    }
    if !Kept(p.c, q) {
      KeptIff(p.c, q);
    }
  }

  /** The checks before any list is made. */
  method Checks(q: Request) returns (r: Option<int>)
    ensures r == Early(q) && (r.None? ==> q.mod !in Skipped(q))
    ensures !q.flags.ignoreLoaded && q.mod in q.live ==> r == Some(if q.flags.failOnLoaded then -EEXIST else 0)
  {
    if !q.flags.ignoreLoaded && q.mod in q.live {
      if q.flags.failOnLoaded {
        return Some(-EEXIST);
      }
      return Some(0);
    }
    if q.mod in q.blacklisted {
      if q.alias && q.flags.blacklistAliasOnly {
        return Some(PROBE_APPLY_BLACKLIST_ALIAS_ONLY);
      }
      if q.flags.blacklistAll {
        return Some(PROBE_APPLY_BLACKLIST_ALL);
      }
      if q.flags.blacklist {
        return Some(PROBE_APPLY_BLACKLIST);
      }
    }
    r := None;
  }

  /** The filter and the loop, on a finished list. */
  method ProbeRun(p: Prober, q: Request, kernel: nat -> Answer)
    returns (err: int, l: Loop, answers: seq<Answer>)
    requires IsConfig(p.c) && q.mod < |p.c.deps| && q.mod !in Skipped(q) && forall k :: kernel(k).inserted <= 0
    requires IsProbeList(p.c, q.mod, q.flags.ignoreCommand, p.visits, p.list)
    requires p.required == {q.mod} + Elements(p.c.deps[q.mod])
    ensures l == RunOf(q, p.list, p.required) && q.mod in l.list
    ensures Answers(l, answers) && answers == FirstAnswers(kernel, |l.list|)
    ensures err == Verdict(l, answers) && Judged(l, answers, err)
    ensures err == 0 ==>
      forall m: nat :: m == q.mod || m in p.c.deps[q.mod] ==> (m in Loaded(l, answers, |l.list|) <==> m !in Skipped(q))
    ensures DepsFirst(p.c) ==> HardFirstBut(p.c, l.list, Skipped(q))
  {
    var list := p.list;
    if q.flags.blacklistAll {
      list := ApplyFilter(list, q.blacklisted);
    } else {
      WithoutNone(list);
    }
    // what the filter leaves has the module in it, so the call never ends here for want of entries
    assert q.mod in list;
    var run := Loop(list, q.mod, p.required, q.flags.ignoreLoaded, q.flags.failOnLoaded);
    var ks := FirstAnswers(kernel, |run.list|);
    l, answers := run, ks;
    ghost var reached;
    err, reached := InsertAll(run, ks);
    if err == 0 {
      forall m: nat | m == q.mod || m in p.c.deps[q.mod] ensures m in Loaded(run, ks, |list|) <==> m !in Skipped(q) {
        RequiredListed(p.c, q.mod, q.flags.ignoreCommand, p.visits, p.list, m);
        if m !in Skipped(q) {
          SuccessLoads(run, ks, m);
        }
      }
    }
    if DepsFirst(p.c) {
      WithoutInOrder(p.c, p.list, Skipped(q));
    }
  }

  lemma {:induction false} WithoutNone(list: seq<nat>)
    ensures Without(list, {}) == list
  {
    if list != [] {
      WithoutNone(list[..|list| - 1]);
    }
  }

  lemma RequiredListed(c: Config, mod: nat, ignore: bool, visits: seq<nat>, list: seq<nat>, m: nat)
    requires IsConfig(c) && mod < |c.deps| && IsProbeList(c, mod, ignore, visits, list)
    requires m == mod || m in c.deps[mod]
    ensures m in list
  {
    assert Needed(c, Skip(mod, ignore), mod, mod);
    BodiesMember(c, visits, mod, m);
    assert m in multiset(list);
  }

  lemma {:induction false} BodiesMember(c: Config, visits: seq<nat>, v: nat, m: nat)
    requires Below(visits, |c.deps|) && v in visits && v < |c.deps| && (m == v || m in c.deps[v])
    ensures m in Bodies(c, visits)
  {
    var last := visits[|visits| - 1];
    if v == last {
      assert m in multiset{v} + multiset(c.deps[v]);
    } else {
      BodiesMember(c, visits[..|visits| - 1], v, m);
    }
  }

  // ----- what is documented for the blacklist

  /** The module or one of its hard dependencies is blacklisted and not in the kernel. */
  ghost predicate Blocked(c: Config, q: Request)
    requires q.mod < |c.deps|
  {
    exists m: nat :: (m == q.mod || m in c.deps[q.mod]) && m in q.blacklisted && m !in q.live
  }

  /** The module and its dependencies are to be checked, and no earlier check of the call applies. */
  predicate Checked(q: Request) {
    q.flags.blacklistAll && q.mod !in q.live && !(q.mod in q.blacklisted && q.alias && q.flags.blacklistAliasOnly)
  }

  /** KMOD_PROBE_APPLY_BLACKLIST_ALL as documented: the call returns early with that value if something blocks it. */
  ghost predicate Kept(c: Config, q: Request)
    requires q.mod < |c.deps|
  {
    Checked(q) ==> (Early(q) == Some(PROBE_APPLY_BLACKLIST_ALL) <==> Blocked(c, q))
  }

  /** Kept exactly if the module itself is blacklisted or every blacklisted dependency is in the kernel already. */
  lemma KeptIff(c: Config, q: Request)
    requires q.mod < |c.deps|
    ensures Kept(c, q) <==>
            (Checked(q) ==>
               q.mod in q.blacklisted || forall d :: d in c.deps[q.mod] && d in q.blacklisted ==> d in q.live)
  {
    if Checked(q) && q.mod in q.blacklisted {
      assert Blocked(c, q);
    }
  }

  /** A blacklisted dependency that is not in the kernel is not on the list either, and so not loaded by the run. */
  ghost predicate LeavesOut(c: Config, q: Request, l: Loop, answers: seq<Answer>)
    requires q.mod < |c.deps| && Answers(l, answers)
  {
    exists d :: d in c.deps[q.mod] && d in q.blacklisted && d !in q.live && d !in l.list
                && d !in Loaded(l, answers, |l.list|)
  }

  /** A call that breaks the promise goes on, and leaves a dependency out. */
  lemma BrokenRun(c: Config, q: Request, l: Loop, answers: seq<Answer>)
    requires q.mod < |c.deps| && !Kept(c, q) && Answers(l, answers)
    requires exists list, required :: l == RunOf(q, list, required)
    ensures Early(q).None? && LeavesOut(c, q, l, answers)
  {
    KeptIff(c, q);
    var d :| d in c.deps[q.mod] && d in q.blacklisted && d !in q.live;
    assert d !in l.list && d !in Loaded(l, answers, |l.list|);
  }

  /** Module 0 needs module 1, and nothing else is configured. */
  const TWO_MODULES := Config([[1], []], [Found([], []), Found([], [])])

  /** Module 0 is to be loaded, and all blacklisted modules refused. */
  function RefuseAll(blacklisted: set<nat>): Request {
    Request(0, false, {}, blacklisted, Flags(false, false, false, true, false, false))
  }

  /** With the dependency on the blacklist the documented value is owed, and the call goes on without it. */
  lemma DependencyBlacklisted()
    ensures IsConfig(TWO_MODULES) && !Kept(TWO_MODULES, RefuseAll({1})) && Early(RefuseAll({1})) == None
    ensures Kept(TWO_MODULES, RefuseAll({0})) && Kept(TWO_MODULES, RefuseAll({}))
  {
    assert TWO_MODULES.deps[0] == [1] && 1 in TWO_MODULES.deps[0];
    KeptIff(TWO_MODULES, RefuseAll({1}));
    KeptIff(TWO_MODULES, RefuseAll({0}));
    KeptIff(TWO_MODULES, RefuseAll({}));
  }

  /** So it is at run time: module 0 is tried, module 1 is not, and a result of 0 leaves it unloaded. */
  method LoadWithoutDependency(kernel: nat -> Answer) returns (err: int, l: Loop, answers: seq<Answer>)
    requires forall k :: kernel(k).inserted <= 0
    ensures Answers(l, answers) && answers == FirstAnswers(kernel, |l.list|) && err == Verdict(l, answers)
    ensures 0 in l.list && 1 !in l.list
    ensures err == 0 ==> 0 in Loaded(l, answers, |l.list|) && 1 !in Loaded(l, answers, |l.list|)
  {
    DependencyBlacklisted();
    var p := new Prober(TWO_MODULES);
    err, l, answers := ProbeInsert(p, RefuseAll({1}), kernel);
    AlwaysFound();
  }

  lemma AlwaysFound()
    ensures IsConfig(TWO_MODULES) && Answerable(TWO_MODULES, Skip(0, false), 0)
  {
  }
}
