/**
 The states of libkmod's probe-list construction. Modules are the objects of the context's pool, numbered; each has a
 list of hard dependencies and, from the configuration, soft dependencies to try before and after it.
 */
module ProbeState {
  import opened Text
  import opened Graphs

  /** What the configuration says about a module's soft dependencies, or the error of asking. */
  datatype Soft = Found(pre: seq<nat>, post: seq<nat>) | Failed(err: int)

  datatype Config = Config(deps: Graph, soft: seq<Soft>)

  predicate IsConfig(c: Config) {
    && |c.soft| == |c.deps|
    && (forall m :: 0 <= m < |c.deps| ==> Below(c.deps[m], |c.deps|))
    && (forall m :: 0 <= m < |c.soft| ==>
        match c.soft[m]
        case Found(pre, post) => Below(pre, |c.deps|) && Below(post, |c.deps|)
        case Failed(err) => err < 0)
  }

  /**
   Dependency lists as depmod writes them: with each entry, the dependencies of that entry stand before it.
   */
  ghost predicate DepsFirst(c: Config) {
    forall m, k, y: nat :: 0 <= m < |c.deps| && 0 <= k < |c.deps[m]| && Edge(c.deps, c.deps[m][k], y) ==>
      y in c.deps[m][..k]
  }

  function Softs(c: Config, m: nat): seq<nat>
    requires m < |c.soft|
  {
    if c.soft[m].Found? then c.soft[m].pre + c.soft[m].post else []
  }

  /** All dependencies of a module, hard and soft. */
  function AllDeps(c: Config): (g: Graph)
    requires |c.soft| == |c.deps|
    ensures |g| == |c.deps| && forall m :: 0 <= m < |g| ==> g[m] == c.deps[m] + Softs(c, m)
  {
    seq(|c.deps|, m requires 0 <= m < |c.deps| => c.deps[m] + Softs(c, m))
  }

  /** A chain of hard and soft dependencies from `a` to `b`. */
  ghost predicate Leads(c: Config, a: nat, b: nat)
    requires |c.soft| == |c.deps|
  {
    Reaches(AllDeps(c), a, b)
  }

  /** The soft dependencies of a list of modules. */
  function SoftsOf(c: Config, ms: seq<nat>): seq<nat>
    requires |c.soft| == |c.deps| && Below(ms, |c.deps|)
  {
    if ms == [] then [] else SoftsOf(c, ms[..|ms| - 1]) + Softs(c, ms[|ms| - 1])
  }

  lemma {:induction false} SoftsOfMember(c: Config, ms: seq<nat>, s: nat)
    requires |c.soft| == |c.deps| && Below(ms, |c.deps|)
    ensures s in SoftsOf(c, ms) <==> exists x :: x in ms && s in Softs(c, x)
  {
    if ms != [] {
      SoftsOfMember(c, ms[..|ms| - 1], s);
      assert ms == ms[..|ms| - 1] + [ms[|ms| - 1]];
    }
  }

  /**
   The modules that processing `m` asks for: the soft dependencies of its hard dependencies, and its own,
   unless it is the one whose commands and soft dependencies are to be ignored.
   */
  function Followed(c: Config, skip: Option<nat>, m: nat): seq<nat>
    requires IsConfig(c) && m < |c.deps|
  {
    SoftsOf(c, c.deps[m]) + if skip == Some(m) then [] else Softs(c, m)
  }

  function FollowedGraph(c: Config, skip: Option<nat>): (g: Graph)
    requires IsConfig(c)
    ensures |g| == |c.deps| && forall m :: 0 <= m < |g| ==> g[m] == Followed(c, skip, m)
  {
    seq(|c.deps|, m requires 0 <= m < |c.deps| => Followed(c, skip, m))
  }

  /** The modules that processing `root` leads to, itself included. */
  ghost predicate Needed(c: Config, skip: Option<nat>, root: nat, v: nat)
    requires IsConfig(c)
  {
    v == root || Reaches(FollowedGraph(c, skip), root, v)
  }

  /** What the visited modules put on the list: each itself and its hard dependencies. */
  function Bodies(c: Config, visits: seq<nat>): multiset<nat>
    requires Below(visits, |c.deps|)
  {
    if visits == [] then multiset{}
    else
      var v := visits[|visits| - 1];
      Bodies(c, visits[..|visits| - 1]) + multiset{v} + multiset(c.deps[v])
  }

  lemma {:induction false} BodiesAppend(c: Config, a: seq<nat>, b: seq<nat>)
    requires Below(a, |c.deps|) && Below(b, |c.deps|)
    ensures Below(a + b, |c.deps|) && Bodies(c, a + b) == Bodies(c, a) + Bodies(c, b)
    decreases |b|
  {
    if b == [] {
      assert a + b == a;
    } else {
      assert (a + b)[..|a + b| - 1] == a + b[..|b| - 1];
      BodiesAppend(c, a, b[..|b| - 1]);
    }
  }

  // ----- the list

  /** Every occurrence of a module stands behind all its hard dependencies. */
  ghost predicate HardFirst(c: Config, list: seq<nat>) {
    forall i, y: nat :: 0 <= i < |list| && Edge(c.deps, list[i], y) ==> y in list[..i]
  }

  /** ... and behind those soft dependencies that are to come before it, unless a chain leads from them back to it. */
  ghost predicate PreFirst(c: Config, skip: Option<nat>, list: seq<nat>)
    requires IsConfig(c)
  {
    forall i, s: nat :: 0 <= i < |list| && PreOf(c, list[i], s) && skip != Some(list[i]) ==>
      s in list[..i] || Leads(c, s, list[i])
  }

  predicate PreOf(c: Config, m: nat, s: nat) {
    m < |c.soft| && c.soft[m].Found? && s in c.soft[m].pre
  }

  lemma HardFirstAppend(c: Config, list: seq<nat>, x: nat)
    requires HardFirst(c, list) && x < |c.deps| && forall y: nat :: y in c.deps[x] ==> y in list
    ensures HardFirst(c, list + [x])
  {
    var l := list + [x];
    forall i, y: nat | 0 <= i < |l| && Edge(c.deps, l[i], y) ensures y in l[..i] {
      if i < |list| {
        assert l[..i] == list[..i];
      } else {
        assert l[..i] == list;
      }
    }
  }

  lemma PreFirstAppend(c: Config, skip: Option<nat>, list: seq<nat>, x: nat)
    requires IsConfig(c) && PreFirst(c, skip, list)
    requires skip != Some(x) ==> forall s: nat :: PreOf(c, x, s) ==> s in list || Leads(c, s, x)
    ensures PreFirst(c, skip, list + [x])
  {
    var l := list + [x];
    forall i, s: nat | 0 <= i < |l| && PreOf(c, l[i], s) && skip != Some(l[i])
      ensures s in l[..i] || Leads(c, s, l[i])
    {
      if i < |list| {
        assert l[..i] == list[..i];
      } else {
        assert l[..i] == list;
      }
    }
  }

  // ----- states

  /** The modules visited so far, as flags and in order, the list so far, and the modules whose command is ignored. */
  datatype State = State(visited: set<nat>, visits: seq<nat>, list: seq<nat>, ignorecmd: set<nat>)

  predicate HasSofts(c: Config, m: nat) {
    m < |c.soft| && Softs(c, m) != []
  }

  function Mark(s: set<nat>, m: nat, on: bool): set<nat> {
    if on then s + {m} else s - {m}
  }

  /** One construction: the configuration, the module asked for, and the one whose soft dependencies are ignored. */
  datatype Run = Run(c: Config, root: nat, skip: Option<nat>)

  ghost predicate IsRun(r: Run) {
    IsConfig(r.c) && r.root < |r.c.deps| && (r.skip == None || r.skip == Some(r.root))
  }

  type ValidRun = r: Run | IsRun(r) ghost witness Run(Config([[]], [Found([], [])]), 0, None)

  /** The invariant, while the bodies of the modules in `open` are under way. */
  ghost predicate Building(r: ValidRun, open: set<nat>, st: State)
  {
    && (forall v: nat :: v in st.visited <==> v in st.visits)
    && Distinct(st.visits) && Below(st.visits, |r.c.deps|) && Below(st.list, |r.c.deps|)
    && (st.visits != [] ==> st.visits[0] == r.root)
    && (forall o :: o in open ==> o in st.visits)
    && (forall v :: v in st.visits && v !in open ==> v in st.list && FollowedIn(r, v, st.visits))
    && (forall v :: v in st.visits ==> v == r.root || Reaches(FollowedGraph(r.c, r.skip), r.root, v))
    && (DepsFirst(r.c) ==> HardFirst(r.c, st.list))
    && PreFirst(r.c, r.skip, st.list)
    && (forall x :: x in st.list && r.skip != Some(x) ==> (x in st.ignorecmd <==> HasSofts(r.c, x)))
  }

  ghost predicate FollowedIn(r: ValidRun, v: nat, visits: seq<nat>)
  {
    v < |r.c.deps| && (forall s :: s in Followed(r.c, r.skip, v) ==> s in visits) && Answered(r.c, r.skip, v)
  }

  /** Processing `v` asks for the soft dependencies of `x`: of its hard dependencies, and of itself unless skipped. */
  predicate Consults(c: Config, skip: Option<nat>, v: nat, x: nat) {
    v < |c.deps| && x < |c.soft| && (x in c.deps[v] || (x == v && skip != Some(v)))
  }

  /** All that processing `v` asks for is found. */
  ghost predicate Answered(c: Config, skip: Option<nat>, v: nat) {
    forall x: nat :: Consults(c, skip, v, x) ==> c.soft[x].Found?
  }

  ghost function Builds(r: ValidRun, open: set<nat>): iset<State>
  {
    iset st: State | forall k :: Asked(k) ==> Building(r, open, st)
  }

  lemma IsBuild(r: ValidRun, open: set<nat>, st: State)
    ensures st in Builds(r, open) <==> Building(r, open, st)
  {
    if st in Builds(r, open) {
      assert Asked(0);
    }
  }

  lemma BuildVisits(r: ValidRun, open: set<nat>, st: State)
    requires st in Builds(r, open)
    ensures Below(st.visits, |r.c.deps|) && forall v: nat :: v in st.visited <==> v in st.visits
  {
    BuildFacts(r, open, st);
  }

  lemma BuildFacts(r: ValidRun, open: set<nat>, st: State)
    requires st in Builds(r, open)
    ensures Distinct(st.visits) && Below(st.visits, |r.c.deps|) && Below(st.list, |r.c.deps|)
    ensures st.visits != [] ==> st.visits[0] == r.root
    ensures forall v: nat :: v in st.visited <==> v in st.visits
    ensures (DepsFirst(r.c) ==> HardFirst(r.c, st.list)) && PreFirst(r.c, r.skip, st.list)
    ensures forall x :: x in st.list && r.skip != Some(x) ==> (x in st.ignorecmd <==> HasSofts(r.c, x))
  {
    IsBuild(r, open, st);
  }

  /** A visited module is under way or on the list. */
  lemma VisitedListed(r: ValidRun, open: set<nat>, st: State, v: nat)
    requires st in Builds(r, open) && v in st.visits
    ensures v in open || v in st.list
    ensures v == r.root || Reaches(FollowedGraph(r.c, r.skip), r.root, v)
    ensures v !in open ==> FollowedIn(r, v, st.visits)
  {
    IsBuild(r, open, st);
  }

  lemma Begin(r: ValidRun, ignorecmd: set<nat>)
    ensures State({}, [], [], ignorecmd) in Builds(r, {})
  {
    IsBuild(r, {}, State({}, [], [], ignorecmd));
  }

  /** A module is visited. */
  lemma Visit(r: ValidRun, open: set<nat>, st: State, m: nat)
    requires st in Builds(r, open) && m < |r.c.deps| && m !in st.visits
    requires m == r.root || Reaches(FollowedGraph(r.c, r.skip), r.root, m)
    requires st.visits == [] ==> m == r.root
    ensures State(st.visited + {m}, st.visits + [m], st.list, st.ignorecmd) in Builds(r, open + {m})
  {
    var visits := st.visits + [m];
    IsBuild(r, open, st);
    IsBuild(r, open + {m}, State(st.visited + {m}, visits, st.list, st.ignorecmd));
    forall v | v in visits && v !in open + {m} ensures v in st.list && FollowedIn(r, v, visits) {
      assert v in st.visits;
      assert FollowedIn(r, v, st.visits);
    }
  }

  /** A module is appended. */
  lemma Append(r: ValidRun, open: set<nat>, st: State, x: nat, on: bool)
    requires st in Builds(r, open) && x < |r.c.deps|
    requires DepsFirst(r.c) ==> forall y: nat :: y in r.c.deps[x] ==> y in st.list
    requires r.skip != Some(x) ==> forall s: nat :: PreOf(r.c, x, s) ==> s in st.list || Leads(r.c, s, x)
    requires r.skip != Some(x) ==> (on <==> HasSofts(r.c, x))
    ensures State(st.visited, st.visits, st.list + [x], Mark(st.ignorecmd, x, on)) in Builds(r, open)
  {
    IsBuild(r, open, st);
    IsBuild(r, open, State(st.visited, st.visits, st.list + [x], Mark(st.ignorecmd, x, on)));
    if DepsFirst(r.c) {
      HardFirstAppend(r.c, st.list, x);
    }
    PreFirstAppend(r.c, r.skip, st.list, x);
  }

  /** The body of a module ends. */
  lemma Finish(r: ValidRun, open: set<nat>, st: State, m: nat)
    requires st in Builds(r, open + {m}) && m < |r.c.deps| && m in st.list && m in st.visits
    requires FollowedIn(r, m, st.visits)
    ensures st in Builds(r, open)
  {
    IsBuild(r, open + {m}, st);
    IsBuild(r, open, st);
  }

  // ----- what a step adds

  /** What comes from `a` by visiting modules and appending `extra` and what the visited modules put on the list. */
  ghost function After(c: Config, a: State, extra: seq<nat>): iset<State> {
    iset b: State | forall k :: Asked(k) ==> Grew(c, a, extra, b)
  }

  ghost predicate Grew(c: Config, a: State, extra: seq<nat>, b: State) {
    && a.visited <= b.visited && a.visits <= b.visits && a.list <= b.list && Below(b.visits, |c.deps|)
    && multiset(b.list) == multiset(a.list) + multiset(extra) + Bodies(c, b.visits[|a.visits|..])
  }

  lemma IsAfter(c: Config, a: State, extra: seq<nat>, b: State)
    ensures b in After(c, a, extra) <==> Grew(c, a, extra, b)
  {
    assert Asked(0);
  }

  lemma AfterGrows(c: Config, a: State, b: State, extra: seq<nat>)
    requires b in After(c, a, extra)
    ensures a.visited <= b.visited && a.visits <= b.visits && a.list <= b.list && Below(b.visits, |c.deps|)
    ensures forall v :: v in a.visits ==> v in b.visits
    ensures forall x :: x in a.list ==> x in b.list
  {
    assert Asked(0);
  }

  lemma AfterNothing(c: Config, a: State)
    requires Below(a.visits, |c.deps|)
    ensures a in After(c, a, [])
  {
    assert a.visits[|a.visits|..] == [];
  }

  lemma AfterAppend(c: Config, a: State, x: nat, ignorecmd: set<nat>)
    requires Below(a.visits, |c.deps|)
    ensures State(a.visited, a.visits, a.list + [x], ignorecmd) in After(c, a, [x])
  {
    assert a.visits[|a.visits|..] == [];
  }

  lemma AfterTransitive(c: Config, s: State, t: State, u: State, e: seq<nat>, f: seq<nat>)
    requires t in After(c, s, e) && u in After(c, t, f)
    ensures u in After(c, s, e + f)
  {
    IsAfter(c, s, e, t);
    IsAfter(c, t, f, u);
    var first, second := t.visits[|s.visits|..], u.visits[|t.visits|..];
    Suffixes(s.visits, t.visits, u.visits);
    BelowSuffix(t.visits, |s.visits|, |c.deps|);
    BelowSuffix(u.visits, |t.visits|, |c.deps|);
    BodiesAppend(c, first, second);
    assert multiset(e + f) == multiset(e) + multiset(f);
    IsAfter(c, s, e + f, u);
  }

  lemma Suffixes(a: seq<nat>, b: seq<nat>, c: seq<nat>)
    requires a <= b <= c
    ensures a <= c && c[|a|..] == b[|a|..] + c[|b|..]
  {
  }

  lemma BelowSuffix(s: seq<nat>, i: nat, n: nat)
    requires Below(s, n) && i <= |s|
    ensures Below(s[i..], n)
  {
  }

  lemma AfterAround(c: Config, s0: State, s1: State, s2: State, s3: State, x: nat)
    requires s1 in After(c, s0, []) && s2 in After(c, s1, [x]) && s3 in After(c, s2, [])
    ensures s3 in After(c, s0, [x])
  {
    AfterTransitive(c, s0, s1, s2, [], [x]);
    AfterTransitive(c, s0, s2, s3, [] + [x], []);
    assert [] + [x] + [] == [x];
  }

  lemma AfterNext(c: Config, s0: State, s1: State, s2: State, ds: seq<nat>, i: nat)
    requires i < |ds| && s1 in After(c, s0, ds[..i]) && s2 in After(c, s1, [ds[i]])
    ensures s2 in After(c, s0, ds[..i + 1])
  {
    AfterTransitive(c, s0, s1, s2, ds[..i], [ds[i]]);
    assert ds[..i + 1] == ds[..i] + [ds[i]];
  }

  /** The whole body of a module: its visit, its hard dependencies, itself. */
  lemma AfterBody(c: Config, a: State, b: State, m: nat)
    requires m < |c.deps| && b in After(c, State(a.visited + {m}, a.visits + [m], a.list, a.ignorecmd), c.deps[m] + [m])
    ensures b in After(c, a, [])
  {
    assert Asked(0);
    var rest := b.visits[|a.visits| + 1..];
    BodyVisits(a.visits, m, b.visits, rest);
    BodiesAppend(c, [m], rest);
    OneBody(c, m);
    Regroup(multiset(a.list), multiset(c.deps[m]), multiset{m}, Bodies(c, rest));
  }

  lemma BodyVisits(before: seq<nat>, m: nat, after: seq<nat>, rest: seq<nat>)
    requires before + [m] <= after && rest == after[|before| + 1..]
    ensures before <= after && after[|before|..] == [m] + rest && after[|before + [m]|..] == rest
  {
  }

  lemma Regroup(list: multiset<nat>, deps: multiset<nat>, m: multiset<nat>, rest: multiset<nat>)
    ensures list + (deps + m) + rest == list + multiset{} + (m + deps + rest)
  {
  }

  lemma OneBody(c: Config, m: nat)
    requires m < |c.deps|
    ensures Below([m], |c.deps|) && Bodies(c, [m]) == multiset{m} + multiset(c.deps[m])
  {
    assert [m][..0] == [];
  }

  /** One entry per visited module and one per entry of its dependency list. */
  function Work(c: Config, visits: seq<nat>): nat
    requires Below(visits, |c.deps|)
  {
    if visits == [] then 0
    else Work(c, visits[..|visits| - 1]) + 1 + |c.deps[visits[|visits| - 1]]|
  }

  lemma {:induction false} BodiesSize(c: Config, visits: seq<nat>)
    requires Below(visits, |c.deps|)
    ensures |Bodies(c, visits)| == Work(c, visits)
  {
    if visits != [] {
      BodiesSize(c, visits[..|visits| - 1]);
    }
  }
}
