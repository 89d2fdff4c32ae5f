/**
 libkmod's probe list: the modules to insert for one module, in order. Two mutually recursive methods walk hard
 dependencies and soft dependencies, which may form cycles; a visited flag keeps every module's body from running twice.
 */
module ProbeList {
  import opened Text
  import opened Graphs
  import opened ProbeState
  import opened ProbeOrder

  /** Chains of dependencies lead from all the modules under way to `x`. */
  ghost predicate LeadTo(c: Config, open: set<nat>, x: nat)
    requires |c.soft| == |c.deps|
  {
    forall o :: o in open ==> o == x || Leads(c, o, x)
  }

  /** The soft dependencies of `x` are among what processing `at` asks for. */
  ghost predicate Serves(r: ValidRun, at: nat, x: nat)
  {
    at < |r.c.deps| && x < |r.c.deps| && forall s :: s in Softs(r.c, x) ==> s in Followed(r.c, r.skip, at)
  }

  function Skip(mod: nat, ignore: bool): Option<nat> {
    if ignore then Some(mod) else None
  }

  /** What a finished list is. */
  ghost predicate IsProbeList(c: Config, mod: nat, ignore: bool, visits: seq<nat>, list: seq<nat>)
    requires IsConfig(c)
  {
    && Distinct(visits) && Below(visits, |c.deps|) && mod in list
    && (forall v: nat :: v in visits <==> Needed(c, Skip(mod, ignore), mod, v))
    && multiset(list) == Bodies(c, visits)
    && |list| == Work(c, visits)
    && (DepsFirst(c) ==> HardFirst(c, list))
    && PreFirst(c, Skip(mod, ignore), list)
    && list == Probed(c, Skip(mod, ignore), mod)
    && PostAfter(c, Skip(mod, ignore), mod, list)
    && PreInOrder(c, Skip(mod, ignore), mod, list) && PostInOrder(c, Skip(mod, ignore), mod, list)
  }

  lemma Complete(r: ValidRun, s0: State, st: State, ignore: bool)
    requires r.skip == Skip(r.root, ignore) && s0.visits == [] && s0.list == []
    requires s0.visited == {} && st in Builds(r, {}) && st in After(r.c, s0, []) && r.root in st.visits
    requires st in Done(r.c, r.skip, [Ask(r.root)], s0)
    requires ignore ==> r.root in st.ignorecmd
    ensures IsProbeList(r.c, r.root, ignore, st.visits, st.list) && Answerable(r.c, r.skip, r.root)
    ensures forall v: nat :: v in st.visited <==> v in st.visits
    ensures forall x :: x in st.list ==> (x in st.ignorecmd <==> HasSofts(r.c, x) || (ignore && x == r.root))
  {
    IsAfter(r.c, s0, [], st);
    BuildFacts(r, {}, st);
    VisitedListed(r, {}, st, r.root);
    DoneAll(r.c, r.skip, r.root, s0, st);
    PostAfterLaw(r.c, r.skip, r.root);
    PreInOrderLaw(r.c, r.skip, r.root);
    PostInOrderLaw(r.c, r.skip, r.root);
    assert st.visits[0..] == st.visits;
    BodiesSize(r.c, st.visits);
    assert |multiset(st.list)| == |st.list|;
    forall v: nat ensures v in st.visits <==> Needed(r.c, r.skip, r.root, v) {
      VisitedIsNeeded(r, st, v);
    }
    forall v: nat | Needed(r.c, r.skip, r.root, v) ensures Answered(r.c, r.skip, v) {
      VisitedListed(r, {}, st, v);
    }
  }

  class Prober {
    const c: Config
    var visited: set<nat>
    var required: set<nat>
    var ignorecmd: set<nat>
    var list: seq<nat>
    ghost var visits: seq<nat>

    constructor (c: Config)
      ensures this.c == c
    {
      this.c := c;
      visited, required, ignorecmd, list, visits := {}, {}, {}, [], [];
    }

    ghost function St(): State
      reads this
    {
      State(visited, visits, list, ignorecmd)
    }

    /**
     kmod_module_get_probe_list: every visited module once with its hard dependencies, and each occurrence behind
     its hard dependencies if the dependency lists are in order
     */
    method ProbeListOf(mod: nat, ignore: bool) returns (err: int)
      requires IsConfig(c) && mod < |c.deps|
      modifies this
      ensures err <= 0 && (err == 0 <==> Answerable(c, Skip(mod, ignore), mod))
      ensures err < 0 ==> list == [] && FailsWith(c, Skip(mod, ignore), mod, err)
      ensures err == 0 ==> IsProbeList(c, mod, ignore, visits, list) && forall v: nat :: v in visited <==> v in visits
      ensures err == 0 ==> required == {mod} + Elements(c.deps[mod])
      ensures err == 0 ==> forall x :: x in list ==>
        (x in ignorecmd <==> HasSofts(c, x) || (ignore && x == mod))
    {
      visited, required, list, visits := {}, {}, [], [];
      ghost var r: ValidRun := Run(c, mod, Skip(mod, ignore));
      Begin(r, ignorecmd);
      ghost var s0 := St();
      err := GetProbeList(mod, true, ignore, r, {});
      if err < 0 {
        list := [];
        ErrorFacts(r, err);
      } else {
        Complete(r, s0, St(), ignore);
      }
    }

    /** __kmod_module_fill_softdep, for a module whose hard dependencies are on the list, while `at` is processed */
    method FillSoftdep(x: nat, ghost at: nat, ghost r: ValidRun, ghost open: set<nat>) returns (err: int)
      requires r.c == c && St() in Builds(r, open)
      requires at in visits && Serves(r, at, x) && LeadTo(c, open, x) && Consults(c, r.skip, at, x)
      requires DepsFirst(c) ==> forall y: nat :: y in c.deps[x] ==> y in list
      modifies this
      ensures err <= 0 && required == old(required) && (err < 0 ==> err in Errors(r))
      ensures err == 0 ==> St() in Builds(r, open) && St() in After(c, old(St()), [x])
      ensures err == 0 ==> St() in Done(c, r.skip, Entry(c, x), old(St()))
      ensures err == 0 ==> x in list && c.soft[x].Found? && forall s :: s in Softs(c, x) ==> s in visits
      decreases UpTo(|c.deps|) - visited, 2
    {
      ghost var s0 := St();
      if c.soft[x].Failed? {
        err := c.soft[x].err;
        IsError(r, open, St(), at, x);
        return;
      }
      var pre, post := c.soft[x].pre, c.soft[x].post;
      err := GetAll(pre, x, at, r, open);
      if err < 0 {
        return;
      }
      ghost var s1 := St();
      AfterGrows(c, s0, s1, []);
      AppendSelf(x, pre != [] || post != [], r, open);
      ghost var s2 := St();
      err := GetAll(post, x, at, r, open);
      if err == 0 {
        AfterAround(c, s0, s1, s2, St(), x);
        AfterGrows(c, s2, St(), []);
        DoneThen(c, r.skip, Asks(pre), [Put(x)], s0, s1, s2);
        DoneThen(c, r.skip, Asks(pre) + [Put(x)], Asks(post), s0, s2, St());
      }
    }

    /** The module itself, behind what has to come before it. */
    method AppendSelf(x: nat, on: bool, ghost r: ValidRun, ghost open: set<nat>)
      requires r.c == c && St() in Builds(r, open) && x < |c.deps| && LeadTo(c, open, x)
      requires c.soft[x].Found? && on == (c.soft[x].pre != [] || c.soft[x].post != [])
      requires forall s :: s in c.soft[x].pre ==> s in visits
      requires DepsFirst(c) ==> forall y: nat :: y in c.deps[x] ==> y in list
      modifies this`list, this`ignorecmd
      ensures St() in Builds(r, open) && St() in After(c, old(St()), [x]) && x in list
      ensures St() in Done(c, r.skip, [Put(x)], old(St()))
    {
      PreListed(r, open, St(), x);
      Append(r, open, St(), x, on);
      BuildFacts(r, open, St());
      AfterAppend(c, St(), x, Mark(ignorecmd, x, on));
      DonePut(c, r.skip, St(), x, State(visited, visits, list + [x], Mark(ignorecmd, x, on)));
      list := list + [x];
      ignorecmd := Mark(ignorecmd, x, on);
    }

    /** Ask for the soft dependencies `ms` of `x`. */
    method GetAll(ms: seq<nat>, ghost x: nat, ghost at: nat, ghost r: ValidRun, ghost open: set<nat>) returns (err: int)
      requires r.c == c && St() in Builds(r, open)
      requires at in visits && Serves(r, at, x) && LeadTo(c, open, x)
      requires forall s :: s in ms ==> s in Softs(c, x)
      modifies this
      ensures err <= 0 && required == old(required) && (err < 0 ==> err in Errors(r))
      ensures err == 0 ==> St() in Builds(r, open) && St() in After(c, old(St()), [])
      ensures err == 0 ==> St() in Done(c, r.skip, Asks(ms), old(St()))
      ensures err == 0 ==> forall s :: s in ms ==> s in visits
      decreases UpTo(|c.deps|) - visited, 1, |ms|
    {
      BuildFacts(r, open, St());
      AfterNothing(c, St());
      DoneNothing(c, r.skip, St());
      err := 0;
      var i := 0;
      ghost var s0 := St();
      while i < |ms|
        invariant i <= |ms| && err == 0 && required == old(required)
        invariant St() in Builds(r, open) && St() in After(c, s0, [])
        invariant FirstIn(ms, i, visits) && St() in Done(c, r.skip, Asks(ms[..i]), s0)
      {
        assert ms[i] in ms;
        AfterGrows(c, s0, St(), []);
        ghost var before, s1 := visits, St();
        err := GetOne(ms[i], x, at, r, open, s0);
        if err < 0 {
          return;
        }
        FirstInNext(ms, i, before, visits);
        AsksNext(c, r.skip, ms, i, s0, s1, St());
        i := i + 1;
      }
      assert ms[..i] == ms;
    }

    /** ... one of them */
    method GetOne(s: nat, ghost x: nat, ghost at: nat, ghost r: ValidRun, ghost open: set<nat>, ghost s0: State)
      returns (err: int)
      requires r.c == c && St() in Builds(r, open) && St() in After(c, s0, [])
      requires at in visits && Serves(r, at, x) && LeadTo(c, open, x) && s in Softs(c, x)
      modifies this
      ensures err <= 0 && required == old(required) && (err < 0 ==> err in Errors(r))
      ensures err == 0 ==> St() in Builds(r, open) && St() in After(c, s0, [])
      ensures err == 0 ==> St() in Done(c, r.skip, [Ask(s)], old(St()))
      ensures err == 0 ==> s in visits && old(visits) <= visits
      decreases UpTo(|c.deps|) - visited, 1, 0
    {
      ghost var s1 := St();
      MayVisit(r, open, s1, at, x, s);
      err := GetProbeList(s, false, false, r, open);
      if err == 0 {
        AfterTransitive(c, s0, s1, St(), [], []);
        AfterGrows(c, s1, St(), []);
      }
    }

    /** __kmod_module_get_probe_list */
    method GetProbeList(m: nat, req: bool, ignore: bool, ghost r: ValidRun, ghost open: set<nat>) returns (err: int)
      requires r.c == c && St() in Builds(r, open) && m < |c.deps|
      requires m in visits || Admissible(r, open, St(), m, ignore)
      modifies this
      ensures err <= 0 && (err < 0 ==> err in Errors(r))
      ensures required == if req && m !in old(visited) then old(required) + {m} + Elements(c.deps[m]) else old(required)
      ensures err == 0 ==> St() in Builds(r, open) && St() in After(c, old(St()), [])
      ensures err == 0 ==> St() in Done(c, r.skip, [Ask(m)], old(St()))
      ensures err == 0 ==> m in visits && (ignore && m !in old(visited) ==> m in ignorecmd)
      decreases UpTo(|c.deps|) - visited, 0
    {
      ghost var s0 := St();
      BuildVisits(r, open, s0);
      if m in visited {
        AfterNothing(c, s0);
        DoneSeen(c, r.skip, s0, m);
        return 0;
      }
      Visit(r, open, s0, m);
      visited := visited + {m};
      visits := visits + [m];
      if req {
        required := required + {m} + Elements(c.deps[m]);
      }
      ghost var s1 := St();
      OpenLeads(r, open, m);
      err := FillDeps(m, r, open + {m});
      if err < 0 {
        return;
      }
      ghost var s2 := St();
      AfterGrows(c, s1, s2, c.deps[m]);
      assert m in s1.visits && m in s1.visited;
      err := FillOwn(m, ignore, r, open + {m});
      if err == 0 {
        BodyDone(r, open, s0, s1, s2, St(), m);
        DoneBody(c, r.skip, m, s0, s1, s2, St());
      }
    }

    /** The hard dependencies of `m` in list order, each with its soft dependencies around it. */
    method FillDeps(m: nat, ghost r: ValidRun, ghost open: set<nat>) returns (err: int)
      requires r.c == c && St() in Builds(r, open) && m in visits && m < |c.deps|
      requires forall d :: d in c.deps[m] ==> LeadTo(c, open, d)
      modifies this
      ensures err <= 0 && required == old(required) && (err < 0 ==> err in Errors(r))
      ensures err == 0 ==> St() in Builds(r, open) && St() in After(c, old(St()), c.deps[m])
      ensures err == 0 ==> St() in Done(c, r.skip, Entries(c, c.deps[m]), old(St()))
      ensures err == 0 ==> DepsDone(c, St(), m, |c.deps[m]|)
      decreases UpTo(|c.deps|) - visited, 4
    {
      BuildFacts(r, open, St());
      AfterNothing(c, St());
      DoneNothing(c, r.skip, St());
      var i := 0;
      err := 0;
      ghost var s0 := St();
      while i < |c.deps[m]|
        invariant i <= |c.deps[m]| && err == 0 && required == old(required) && m in visits
        invariant St() in Builds(r, open) && St() in After(c, s0, c.deps[m][..i])
        invariant DepsDone(c, St(), m, i) && St() in Done(c, r.skip, Entries(c, c.deps[m][..i]), s0)
      {
        AfterGrows(c, s0, St(), c.deps[m][..i]);
        assert c.deps[m][i] in c.deps[m];
        err := FillDep(m, i, r, open, s0);
        if err < 0 {
          return;
        }
        i := i + 1;
      }
      assert c.deps[m][..i] == c.deps[m];
    }

    /** ... one of them */
    method FillDep(m: nat, i: nat, ghost r: ValidRun, ghost open: set<nat>, ghost s0: State) returns (err: int)
      requires r.c == c && St() in Builds(r, open) && m in visits && m < |c.deps| && i < |c.deps[m]|
      requires LeadTo(c, open, c.deps[m][i]) && DepsDone(c, St(), m, i) && St() in After(c, s0, c.deps[m][..i])
      requires St() in Done(c, r.skip, Entries(c, c.deps[m][..i]), s0)
      modifies this
      ensures err <= 0 && required == old(required) && (err < 0 ==> err in Errors(r))
      ensures err == 0 ==> St() in Builds(r, open) && St() in After(c, s0, c.deps[m][..i + 1])
      ensures err == 0 ==> St() in Done(c, r.skip, Entries(c, c.deps[m][..i + 1]), s0)
      ensures err == 0 ==> DepsDone(c, St(), m, i + 1) && m in visits
      decreases UpTo(|c.deps|) - visited, 3
    {
      ghost var s1, x := St(), c.deps[m][i];
      ServesDep(r, m, i);
      ListedBefore(r, s1, m, i);
      err := FillSoftdep(c.deps[m][i], m, r, open);
      if err == 0 {
        AfterNext(c, s0, s1, St(), c.deps[m], i);
        AfterGrows(c, s1, St(), [x]);
        DepsStayDone(c, s1, St(), m, i, [x]);
        EntriesNext(c, r.skip, c.deps[m], i, s0, s1, St());
      }
    }

    /** The module itself, with or without its soft dependencies. */
    method FillOwn(m: nat, ignore: bool, ghost r: ValidRun, ghost open: set<nat>) returns (err: int)
      requires r.c == c && St() in Builds(r, open) && m in visits && m < |c.deps|
      requires LeadTo(c, open, m) && DepsDone(c, St(), m, |c.deps[m]|) && (ignore <==> r.skip == Some(m))
      modifies this
      ensures err <= 0 && required == old(required) && (err < 0 ==> err in Errors(r))
      ensures err == 0 ==> St() in Builds(r, open) && St() in After(c, old(St()), [m])
      ensures err == 0 ==> St() in Done(c, r.skip, Own(c, r.skip, m), old(St()))
      ensures err == 0 ==> m in list
      ensures err == 0 ==>
        if ignore then m in ignorecmd else c.soft[m].Found? && forall s :: s in Softs(c, m) ==> s in visits
      decreases UpTo(|c.deps|) - visited, 3
    {
      if ignore {
        BuildFacts(r, open, St());
        AfterAppend(c, St(), m, Mark(ignorecmd, m, true));
        Append(r, open, St(), m, true);
        DonePut(c, r.skip, St(), m, State(visited, visits, list + [m], Mark(ignorecmd, m, true)));
        list := list + [m];
        ignorecmd := Mark(ignorecmd, m, true);
        err := 0;
      } else {
        ServesOwn(r, m);
        err := FillSoftdep(m, m, r, open);
      }
    }
  }

  /** Whatever the construction asks for is found. */
  ghost predicate Answerable(c: Config, skip: Option<nat>, root: nat)
    requires IsConfig(c)
  {
    forall v: nat :: Needed(c, skip, root, v) ==> Answered(c, skip, v)
  }

  /** `err` is the error of asking for the soft dependencies of a module that the construction asks for. */
  ghost predicate FailsWith(c: Config, skip: Option<nat>, root: nat, err: int)
    requires IsConfig(c)
  {
    exists v: nat, x: nat :: Consults(c, skip, v, x) && Needed(c, skip, root, v) && c.soft[x] == Failed(err)
  }

  ghost function Errors(r: ValidRun): iset<int> {
    iset err: int | FailsWith(r.c, r.skip, r.root, err)
  }

  lemma ErrorFacts(r: ValidRun, err: int)
    requires err in Errors(r)
    ensures FailsWith(r.c, r.skip, r.root, err) && !Answerable(r.c, r.skip, r.root)
  {
    var v: nat, x: nat :| Consults(r.c, r.skip, v, x) && Needed(r.c, r.skip, r.root, v) && r.c.soft[x] == Failed(err);
    assert !Answered(r.c, r.skip, v);
  }

  lemma IsError(r: ValidRun, open: set<nat>, st: State, at: nat, x: nat)
    requires st in Builds(r, open) && at in st.visits && Consults(r.c, r.skip, at, x) && r.c.soft[x].Failed?
    ensures r.c.soft[x].err in Errors(r)
  {
    VisitedListed(r, open, st, at);
    assert Needed(r.c, r.skip, r.root, at);
  }

  /** With all modules finished, exactly the needed ones have been visited. */
  lemma VisitedIsNeeded(r: ValidRun, st: State, v: nat)
    requires st in Builds(r, {}) && r.root in st.visits
    ensures v in st.visits <==> Needed(r.c, r.skip, r.root, v)
  {
    var fg := FollowedGraph(r.c, r.skip);
    if v in st.visits {
      VisitedListed(r, {}, st, v);
    } else if Reaches(fg, r.root, v) {
      var s := set x | x in st.visits;
      forall a: nat, b: nat | a in s && Edge(fg, a, b) ensures b in s {
        VisitedListed(r, {}, st, a);
      }
      ClosedContains(fg, r.root, s, v);
    }
  }

  ghost predicate FirstIn(ms: seq<nat>, i: nat, visits: seq<nat>) {
    i <= |ms| && forall k :: 0 <= k < i ==> ms[k] in visits
  }

  lemma FirstInNext(ms: seq<nat>, i: nat, before: seq<nat>, visits: seq<nat>)
    requires FirstIn(ms, i, before) && before <= visits && i < |ms| && ms[i] in visits
    ensures FirstIn(ms, i + 1, visits)
  {
    forall k | 0 <= k < i ensures ms[k] in visits {
      assert ms[k] in before;
    }
  }

  /** A module that may be visited next. */
  ghost predicate Admissible(r: ValidRun, open: set<nat>, st: State, m: nat, ignore: bool)
  {
    && (ignore <==> r.skip == Some(m))
    && (m == r.root || Reaches(FollowedGraph(r.c, r.skip), r.root, m))
    && (st.visits == [] ==> m == r.root)
    && (forall o :: o in open ==> Leads(r.c, o, m))
  }

  /** The first `i` hard dependencies of `m` are on the list, and their soft dependencies visited. */
  ghost predicate DepsDone(c: Config, st: State, m: nat, i: nat)
    requires |c.soft| == |c.deps|
  {
    m < |c.deps| && i <= |c.deps[m]| &&
    forall k :: 0 <= k < i ==>
      && c.deps[m][k] in st.list && c.deps[m][k] < |c.deps| && c.soft[c.deps[m][k]].Found?
      && forall s :: s in Softs(c, c.deps[m][k]) ==> s in st.visits
  }

  lemma SoftEdge(c: Config, x: nat, s: nat)
    requires IsConfig(c) && x < |c.deps| && s in Softs(c, x)
    ensures s < |c.deps| && Leads(c, x, s)
  {
    var k :| 0 <= k < |Softs(c, x)| && Softs(c, x)[k] == s;
    assert Edge(AllDeps(c), x, s);
    ReachesEdge(AllDeps(c), x, s);
  }

  lemma PreListed(r: ValidRun, open: set<nat>, st: State, x: nat)
    requires st in Builds(r, open) && x < |r.c.deps| && LeadTo(r.c, open, x) && r.c.soft[x].Found?
    requires forall s :: s in r.c.soft[x].pre ==> s in st.visits
    ensures forall s: nat :: PreOf(r.c, x, s) ==> s in st.list || Leads(r.c, s, x)
  {
    forall s: nat | PreOf(r.c, x, s) ensures s in st.list || Leads(r.c, s, x) {
      VisitedListed(r, open, st, s);
      SoftEdge(r.c, x, s);
    }
  }

  /** A soft dependency of a module being processed may be visited. */
  lemma MayVisit(r: ValidRun, open: set<nat>, st: State, at: nat, x: nat, s: nat)
    requires st in Builds(r, open) && at in st.visits && Serves(r, at, x) && LeadTo(r.c, open, x)
    requires s in Softs(r.c, x)
    ensures s < |r.c.deps| && (s in st.visits || Admissible(r, open, st, s, false))
  {
    SoftEdge(r.c, x, s);
    BuildFacts(r, open, st);
    assert r.root in st.visits;
    forall o | o in open ensures Leads(r.c, o, s) {
      if o != x {
        ReachesTransitive(AllDeps(r.c), o, x, s);
      }
    }
    FollowedReached(r, open, st, at, s);
  }

  lemma FollowedReached(r: ValidRun, open: set<nat>, st: State, at: nat, s: nat)
    requires st in Builds(r, open) && at in st.visits && at < |r.c.deps|
    requires s in Followed(r.c, r.skip, at)
    ensures Reaches(FollowedGraph(r.c, r.skip), r.root, s)
  {
    var fg := FollowedGraph(r.c, r.skip);
    assert Edge(fg, at, s);
    ReachesEdge(fg, at, s);
    VisitedListed(r, open, st, at);
    if at != r.root {
      ReachesTransitive(fg, r.root, at, s);
    }
  }

  lemma OpenLeads(r: ValidRun, open: set<nat>, m: nat)
    requires m < |r.c.deps| && forall o :: o in open ==> Leads(r.c, o, m)
    ensures LeadTo(r.c, open + {m}, m) && forall d :: d in r.c.deps[m] ==> LeadTo(r.c, open + {m}, d)
  {
    forall d | d in r.c.deps[m] ensures LeadTo(r.c, open + {m}, d) {
      assert Edge(AllDeps(r.c), m, d);
      ReachesEdge(AllDeps(r.c), m, d);
      forall o | o in open ensures Leads(r.c, o, d) {
        ReachesTransitive(AllDeps(r.c), o, m, d);
      }
    }
  }

  lemma ServesDep(r: ValidRun, m: nat, i: nat)
    requires m < |r.c.deps| && i < |r.c.deps[m]|
    ensures Serves(r, m, r.c.deps[m][i])
  {
    var x := r.c.deps[m][i];
    assert x in r.c.deps[m];
    forall s | s in Softs(r.c, x) ensures s in Followed(r.c, r.skip, m) {
      SoftsOfMember(r.c, r.c.deps[m], s);
    }
  }

  lemma ServesOwn(r: ValidRun, m: nat)
    requires m < |r.c.deps| && r.skip != Some(m)
    ensures Serves(r, m, m)
  {
  }

  /** The dependencies of an entry stand before it in every list that has the entry. */
  lemma ListedBefore(r: ValidRun, st: State, m: nat, i: nat)
    requires m < |r.c.deps| && i < |r.c.deps[m]| && DepsDone(r.c, st, m, i)
    ensures r.c.deps[m][i] < |r.c.deps|
    ensures DepsFirst(r.c) ==> forall y: nat :: y in r.c.deps[r.c.deps[m][i]] ==> y in st.list
  {
    var x := r.c.deps[m][i];
    forall y: nat | DepsFirst(r.c) && y in r.c.deps[x] ensures y in st.list {
      assert Edge(r.c.deps, r.c.deps[m][i], y);
      var k :| 0 <= k < i && r.c.deps[m][k] == y;
    }
  }

  /** A module's body is complete: dependencies, then the module with its soft dependencies. */
  lemma BodyDone(r: ValidRun, open: set<nat>, s0: State, s1: State, s2: State, s3: State, m: nat)
    requires m < |r.c.deps| && s1 == State(s0.visited + {m}, s0.visits + [m], s0.list, s0.ignorecmd)
    requires s2 in After(r.c, s1, r.c.deps[m]) && DepsDone(r.c, s2, m, |r.c.deps[m]|)
    requires s3 in Builds(r, open + {m}) && s3 in After(r.c, s2, [m]) && m in s3.list
    requires r.skip != Some(m) ==> r.c.soft[m].Found? && forall s :: s in Softs(r.c, m) ==> s in s3.visits
    ensures s3 in Builds(r, open) && s3 in After(r.c, s0, []) && m in s3.visits
  {
    AfterTransitive(r.c, s1, s2, s3, r.c.deps[m], [m]);
    AfterBody(r.c, s0, s3, m);
    AfterGrows(r.c, s1, s3, r.c.deps[m] + [m]);
    assert s1.visits[|s1.visits| - 1] == m;
    DepsStayDone(r.c, s2, s3, m, |r.c.deps[m]|, [m]);
    BodyFollowed(r, s3, m);
    Finish(r, open, s3, m);
  }

  lemma BodyFollowed(r: ValidRun, st: State, m: nat)
    requires m < |r.c.deps| && DepsDone(r.c, st, m, |r.c.deps[m]|)
    requires r.skip != Some(m) ==> r.c.soft[m].Found? && forall s :: s in Softs(r.c, m) ==> s in st.visits
    ensures FollowedIn(r, m, st.visits)
  {
    forall s | s in Followed(r.c, r.skip, m) ensures s in st.visits {
      if s in SoftsOf(r.c, r.c.deps[m]) {
        SoftsOfMember(r.c, r.c.deps[m], s);
        var x :| x in r.c.deps[m] && s in Softs(r.c, x);
        var k :| 0 <= k < |r.c.deps[m]| && r.c.deps[m][k] == x;
      }
    }
    forall x: nat | Consults(r.c, r.skip, m, x) ensures r.c.soft[x].Found? {
      if x in r.c.deps[m] {
        var k :| 0 <= k < |r.c.deps[m]| && r.c.deps[m][k] == x;
      }
    }
  }

  /** What was done stays done. */
  lemma DepsStayDone(c: Config, a: State, b: State, m: nat, i: nat, extra: seq<nat>)
    requires |c.soft| == |c.deps| && DepsDone(c, a, m, i) && b in After(c, a, extra)
    ensures DepsDone(c, b, m, i)
  {
    AfterGrows(c, a, b, extra);
  }
}
