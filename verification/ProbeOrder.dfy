/**
 The order of the probe list, as a list of tasks: asking for a module puts the tasks of its body in front, once; putting
 a module appends it. What this order means is said by cutting a module's soft dependencies short.
 */
module ProbeOrder {
  import opened Text
  import opened Graphs
  import opened ProbeState

  datatype Task = Ask(m: nat) | Put(x: nat)

  function Asks(ms: seq<nat>): (ts: seq<Task>)
    ensures |ts| == |ms| && forall i :: 0 <= i < |ms| ==> ts[i] == Ask(ms[i])
  {
    seq(|ms|, i requires 0 <= i < |ms| => Ask(ms[i]))
  }

  /** A module between its soft dependencies. */
  function Entry(c: Config, x: nat): seq<Task>
    requires x < |c.soft|
  {
    match c.soft[x]
    case Found(pre, post) => Asks(pre) + [Put(x)] + Asks(post)
    case Failed(_) => [Put(x)]
  }

  function Entries(c: Config, ms: seq<nat>): seq<Task>
    requires Below(ms, |c.soft|)
  {
    if ms == [] then [] else Entries(c, ms[..|ms| - 1]) + Entry(c, ms[|ms| - 1])
  }

  function Own(c: Config, skip: Option<nat>, m: nat): seq<Task>
    requires m < |c.soft|
  {
    if skip == Some(m) then [Put(m)] else Entry(c, m)
  }

  /** The hard dependencies in list order, then the module. */
  function Body(c: Config, skip: Option<nat>, m: nat): seq<Task>
    requires IsConfig(c) && m < |c.deps|
  {
    Entries(c, c.deps[m]) + Own(c, skip, m)
  }

  /** The list when all tasks are done. */
  function Carry(c: Config, skip: Option<nat>, todo: seq<Task>, seen: set<nat>, out: seq<nat>): seq<nat>
    requires IsConfig(c)
    decreases UpTo(|c.deps|) - seen, |todo|
  {
    if todo == [] then out
    else
      match todo[0]
      case Put(x) => Carry(c, skip, todo[1..], seen, out + [x])
      case Ask(m) =>
        if m in seen || m >= |c.deps| then Carry(c, skip, todo[1..], seen, out)
        else Carry(c, skip, Body(c, skip, m) + todo[1..], seen + {m}, out)
  }

  /** The probe list of `root`. */
  function Probed(c: Config, skip: Option<nat>, root: nat): seq<nat>
    requires IsConfig(c)
  {
    Carry(c, skip, [Ask(root)], {}, [])
  }

  // ----- tasks done one after the other

  ghost predicate Does(c: Config, skip: Option<nat>, tasks: seq<Task>, s: State, t: State)
    requires IsConfig(c)
  {
    forall todo ::
      Carry(c, skip, tasks + todo, s.visited, s.list) == Carry(c, skip, todo, t.visited, t.list)
  }

  /** The states that doing the tasks leads to. */
  ghost function Done(c: Config, skip: Option<nat>, tasks: seq<Task>, s: State): iset<State>
    requires IsConfig(c)
  {
    iset t: State | forall k :: Asked(k) ==> Does(c, skip, tasks, s, t)
  }

  lemma IsDone(c: Config, skip: Option<nat>, tasks: seq<Task>, s: State, t: State)
    requires IsConfig(c)
    ensures t in Done(c, skip, tasks, s) <==> Does(c, skip, tasks, s, t)
  {
    assert Asked(0);
  }

  lemma DoneNothing(c: Config, skip: Option<nat>, s: State)
    requires IsConfig(c)
    ensures s in Done(c, skip, [], s)
  {
    forall todo ensures Carry(c, skip, [] + todo, s.visited, s.list) == Carry(c, skip, todo, s.visited, s.list) {
      assert [] + todo == todo;
    }
    IsDone(c, skip, [], s, s);
  }

  lemma DonePut(c: Config, skip: Option<nat>, s: State, x: nat, t: State)
    requires IsConfig(c) && t.visited == s.visited && t.list == s.list + [x]
    ensures t in Done(c, skip, [Put(x)], s)
  {
    forall todo ensures Carry(c, skip, [Put(x)] + todo, s.visited, s.list) == Carry(c, skip, todo, t.visited, t.list) {
      assert ([Put(x)] + todo)[1..] == todo;
    }
    IsDone(c, skip, [Put(x)], s, t);
  }

  lemma DoneSeen(c: Config, skip: Option<nat>, s: State, m: nat)
    requires IsConfig(c) && m in s.visited
    ensures s in Done(c, skip, [Ask(m)], s)
  {
    forall todo ensures Carry(c, skip, [Ask(m)] + todo, s.visited, s.list) == Carry(c, skip, todo, s.visited, s.list) {
      assert ([Ask(m)] + todo)[1..] == todo;
    }
    IsDone(c, skip, [Ask(m)], s, s);
  }

  lemma DoneVisit(c: Config, skip: Option<nat>, s: State, m: nat, v: State, t: State)
    requires IsConfig(c) && m < |c.deps| && m !in s.visited && v.visited == s.visited + {m} && v.list == s.list
    requires t in Done(c, skip, Body(c, skip, m), v)
    ensures t in Done(c, skip, [Ask(m)], s)
  {
    IsDone(c, skip, Body(c, skip, m), v, t);
    forall todo ensures Carry(c, skip, [Ask(m)] + todo, s.visited, s.list) == Carry(c, skip, todo, t.visited, t.list) {
      assert ([Ask(m)] + todo)[1..] == todo;
    }
    IsDone(c, skip, [Ask(m)], s, t);
  }

  lemma DoneThen(c: Config, skip: Option<nat>, a: seq<Task>, b: seq<Task>, s: State, t: State, u: State)
    requires IsConfig(c) && t in Done(c, skip, a, s) && u in Done(c, skip, b, t)
    ensures u in Done(c, skip, a + b, s)
  {
    IsDone(c, skip, a, s, t);
    IsDone(c, skip, b, t, u);
    forall todo ensures Carry(c, skip, a + b + todo, s.visited, s.list) == Carry(c, skip, todo, u.visited, u.list) {
      assert a + b + todo == a + (b + todo);
    }
    IsDone(c, skip, a + b, s, u);
  }

  lemma DoneBody(c: Config, skip: Option<nat>, m: nat, s: State, v: State, t: State, u: State)
    requires IsConfig(c) && m < |c.deps| && m !in s.visited && v.visited == s.visited + {m} && v.list == s.list
    requires t in Done(c, skip, Entries(c, c.deps[m]), v) && u in Done(c, skip, Own(c, skip, m), t)
    ensures u in Done(c, skip, [Ask(m)], s)
  {
    DoneThen(c, skip, Entries(c, c.deps[m]), Own(c, skip, m), v, t, u);
    DoneVisit(c, skip, s, m, v, u);
  }

  lemma AsksNext(c: Config, skip: Option<nat>, ms: seq<nat>, i: nat, s: State, t: State, u: State)
    requires IsConfig(c) && i < |ms| && t in Done(c, skip, Asks(ms[..i]), s) && u in Done(c, skip, [Ask(ms[i])], t)
    ensures u in Done(c, skip, Asks(ms[..i + 1]), s)
  {
    DoneThen(c, skip, Asks(ms[..i]), [Ask(ms[i])], s, t, u);
    assert Asks(ms[..i]) + [Ask(ms[i])] == Asks(ms[..i + 1]);
  }

  lemma EntriesNext(c: Config, skip: Option<nat>, ms: seq<nat>, i: nat, s: State, t: State, u: State)
    requires IsConfig(c) && Below(ms, |c.soft|) && i < |ms|
    requires t in Done(c, skip, Entries(c, ms[..i]), s) && u in Done(c, skip, Entry(c, ms[i]), t)
    ensures u in Done(c, skip, Entries(c, ms[..i + 1]), s)
  {
    DoneThen(c, skip, Entries(c, ms[..i]), Entry(c, ms[i]), s, t, u);
    assert ms[..i + 1][..i] == ms[..i];
  }

  lemma DoneAll(c: Config, skip: Option<nat>, root: nat, s: State, t: State)
    requires IsConfig(c) && s.visited == {} && s.list == [] && t in Done(c, skip, [Ask(root)], s)
    ensures t.list == Probed(c, skip, root)
  {
    IsDone(c, skip, [Ask(root)], s, t);
    assert Carry(c, skip, [Ask(root)] + [], {}, []) == Carry(c, skip, [], t.visited, t.list);
    assert [Ask(root)] + [] == [Ask(root)];
  }

  // ----- soft dependencies cut short

  /** The configuration with other soft dependencies for `x`. */
  function Cut(c: Config, x: nat, pre: seq<nat>, post: seq<nat>): Config
    requires x < |c.soft|
  {
    c.(soft := c.soft[x := Found(pre, post)])
  }

  /** `y` is one of the modules that the list is made of. */
  ghost predicate Listed(c: Config, skip: Option<nat>, root: nat, y: nat)
    requires IsConfig(c)
  {
    exists v: nat :: Needed(c, skip, root, v) && v < |c.deps| && (y == v || y in c.deps[v])
  }

  /** `y` stands among the first `i` entries, and `s` does not. */
  predicate Before(list: seq<nat>, i: nat, y: nat, s: nat) {
    i <= |list| && y in list[..i] && s !in list[..i]
  }

  /** With these soft dependencies of `x` only, `y` is on the list. */
  ghost predicate Remains(c: Config, skip: Option<nat>, root: nat, x: nat, pre: seq<nat>, post: seq<nat>, y: nat)
    requires x < |c.soft|
  {
    IsConfig(Cut(c, x, pre, post)) && Listed(Cut(c, x, pre, post), skip, root, y)
  }

  /** Whatever stands on the list before `x` would be on it without the soft dependencies that come after `x`. */
  ghost predicate PostAfter(c: Config, skip: Option<nat>, root: nat, list: seq<nat>) {
    forall x: nat, i: nat, y: nat :: x < |c.soft| && c.soft[x].Found? && Before(list, i, y, x) ==>
      Remains(c, skip, root, x, c.soft[x].pre, [], y)
  }

  /** ... before one that comes before `x`: without this and the later ones, unless it leads there itself. */
  ghost predicate PreInOrder(c: Config, skip: Option<nat>, root: nat, list: seq<nat>)
    requires |c.soft| == |c.deps|
  {
    forall x: nat, k: nat, i: nat, y: nat ::
      x < |c.soft| && c.soft[x].Found? && k < |c.soft[x].pre| && Before(list, i, y, c.soft[x].pre[k]) ==>
        Remains(c, skip, root, x, c.soft[x].pre[..k], [], y) || Leads(c, c.soft[x].pre[k], y)
  }

  /** ... and before one that comes after `x`. */
  ghost predicate PostInOrder(c: Config, skip: Option<nat>, root: nat, list: seq<nat>)
    requires |c.soft| == |c.deps|
  {
    forall x: nat, k: nat, i: nat, y: nat ::
      x < |c.soft| && c.soft[x].Found? && k < |c.soft[x].post| && Before(list, i, y, c.soft[x].post[k]) ==>
        Remains(c, skip, root, x, c.soft[x].pre, c.soft[x].post[..k], y) || Leads(c, c.soft[x].post[k], y)
  }

  // ----- the tasks before the cut

  /** A cut: the tasks of `x` from number `pos` on are taken away. */
  datatype Cutting = Cutting(c: Config, skip: Option<nat>, root: nat, x: nat, pos: nat)

  ghost predicate IsCutting(g: Cutting) {
    IsConfig(g.c) && g.root < |g.c.deps| && g.x < |g.c.soft| && g.c.soft[g.x].Found? && g.pos < |Entry(g.c, g.x)|
  }

  type ValidCutting = g: Cutting | IsCutting(g)
    ghost witness Cutting(Config([[]], [Found([], [])]), None, 0, 0, 0)

  ghost function Rest(g: ValidCutting): (c: Config)
    ensures IsConfig(c) && c.deps == g.c.deps
  {
    var pre, post := g.c.soft[g.x].pre, g.c.soft[g.x].post;
    if g.pos <= |pre| then Cut(g.c, g.x, pre[..g.pos], []) else Cut(g.c, g.x, pre, post[..g.pos - |pre| - 1])
  }

  /** The first task taken away. */
  ghost function Marker(g: ValidCutting): Task {
    Entry(g.c, g.x)[g.pos]
  }

  /** The task comes up without those taken away, too. */
  ghost predicate Justified(g: ValidCutting, t: Task) {
    match t
    case Ask(m) => Needed(Rest(g), g.skip, g.root, m)
    case Put(y) => Listed(Rest(g), g.skip, g.root, y)
  }

  ghost predicate AllJustified(g: ValidCutting, ts: seq<Task>) {
    forall i :: 0 <= i < |ts| ==> Justified(g, ts[i])
  }

  /** Nothing is taken away, or everything from the marker on. */
  ghost predicate FromMarker(g: ValidCutting, ts: seq<Task>) {
    ts == [] || ts[0] == Marker(g)
  }

  lemma NeededNext(c: Config, skip: Option<nat>, root: nat, m: nat, s: nat)
    requires IsConfig(c) && m < |c.deps| && Needed(c, skip, root, m) && s in Followed(c, skip, m)
    ensures Needed(c, skip, root, s)
  {
    var fg := FollowedGraph(c, skip);
    assert Edge(fg, m, s);
    ReachesEdge(fg, m, s);
    if m != root {
      ReachesTransitive(fg, root, m, s);
    }
  }

  /** The tasks of an entry of a module's body, up to the cut. */
  lemma EntryJustified(g: ValidCutting, m: nat, y: nat, i: nat)
    requires m < |g.c.deps| && Needed(Rest(g), g.skip, g.root, m)
    requires y < |g.c.soft| && (y in g.c.deps[m] || (y == m && g.skip != Some(m)))
    requires i < |Entry(g.c, y)| && (y == g.x ==> i < g.pos)
    ensures Justified(g, Entry(g.c, y)[i])
  {
    var c := Rest(g);
    match Entry(g.c, y)[i]
    case Put(_) =>
      assert Needed(c, g.skip, g.root, m);
    case Ask(s) =>
      EntrySoft(g, y, i, s);
      if y in c.deps[m] {
        SoftsOfMember(c, c.deps[m], s);
      }
      NeededNext(c, g.skip, g.root, m, s);
  }

  lemma EntrySoft(g: ValidCutting, y: nat, i: nat, s: nat)
    requires y < |g.c.soft| && i < |Entry(g.c, y)| && Entry(g.c, y)[i] == Ask(s) && (y == g.x ==> i < g.pos)
    ensures s in Softs(Rest(g), y)
  {
    var pre, post := g.c.soft[y].pre, g.c.soft[y].post;
    assert Entry(g.c, y) == Asks(pre) + [Put(y)] + Asks(post);
    if i < |pre| {
      assert s == pre[i];
      if y == g.x && g.pos <= |pre| {
        assert pre[..g.pos][i] == s;
      }
    } else {
      assert s == post[i - |pre| - 1];
      if y == g.x {
        assert post[..g.pos - |pre| - 1][i - |pre| - 1] == s;
      }
    }
  }

  /** A body is justified up to a first cut in it. */
  lemma {:induction false} EntriesSplit(g: ValidCutting, m: nat, ms: seq<nat>) returns (p: seq<Task>, q: seq<Task>)
    requires m < |g.c.deps| && Needed(Rest(g), g.skip, g.root, m) && Below(ms, |g.c.soft|)
    requires forall y :: y in ms ==> y in g.c.deps[m]
    ensures Entries(g.c, ms) == p + q && AllJustified(g, p) && FromMarker(g, q)
    decreases |ms|
  {
    p, q := [], [];
    if ms != [] {
      p, q := EntriesSplit(g, m, ms[..|ms| - 1]);
      p, q := Longer(g, m, ms[|ms| - 1], p, q);
    }
  }

  lemma Longer(g: ValidCutting, m: nat, y: nat, p0: seq<Task>, q0: seq<Task>) returns (p: seq<Task>, q: seq<Task>)
    requires m < |g.c.deps| && Needed(Rest(g), g.skip, g.root, m)
    requires y < |g.c.soft| && (y in g.c.deps[m] || (y == m && g.skip != Some(m)))
    requires AllJustified(g, p0) && FromMarker(g, q0)
    ensures p + q == p0 + q0 + Entry(g.c, y) && AllJustified(g, p) && FromMarker(g, q)
  {
    var e := Entry(g.c, y);
    if q0 != [] {
      p, q := p0, q0 + e;
      Grouped(p0, q0, e);
    } else {
      var n := if y == g.x then g.pos else |e|;
      forall i | 0 <= i < n ensures Justified(g, e[i]) {
        EntryJustified(g, m, y, i);
      }
      p, q := p0 + e[..n], e[n..];
      Grouped(p0, e[..n], e[n..]);
      assert e == e[..n] + e[n..] && p0 + q0 == p0;
    }
  }

  lemma Grouped<T>(a: seq<T>, b: seq<T>, c: seq<T>)
    ensures a + (b + c) == a + b + c
  {
  }

  lemma BodySplit(g: ValidCutting, m: nat) returns (p: seq<Task>, q: seq<Task>)
    requires m < |g.c.deps| && Needed(Rest(g), g.skip, g.root, m)
    ensures Body(g.c, g.skip, m) == p + q && AllJustified(g, p) && FromMarker(g, q)
  {
    p, q := EntriesSplit(g, m, g.c.deps[m]);
    if g.skip != Some(m) {
      p, q := Longer(g, m, m, p, q);
    } else if q != [] {
      q := q + [Put(m)];
    } else {
      assert Listed(Rest(g), g.skip, g.root, m);
      p := p + [Put(m)];
    }
  }

  // ----- what a module leads to

  ghost predicate Led(c: Config, s: nat, t: Task)
    requires |c.soft| == |c.deps|
  {
    match t
    case Ask(m) => Leads(c, s, m)
    case Put(y) => y == s || Leads(c, s, y)
  }

  ghost predicate AllLed(c: Config, s: nat, ts: seq<Task>)
    requires |c.soft| == |c.deps|
  {
    forall i :: 0 <= i < |ts| ==> Led(c, s, ts[i])
  }

  lemma LeadsSoft(c: Config, x: nat, s: nat)
    requires IsConfig(c) && x < |c.deps| && (s in Softs(c, x) || s in c.deps[x])
    ensures Leads(c, x, s)
  {
    assert Edge(AllDeps(c), x, s);
    ReachesEdge(AllDeps(c), x, s);
  }

  lemma EntryLed(c: Config, s: nat, y: nat)
    requires IsConfig(c) && y < |c.soft| && (y == s || Leads(c, s, y))
    ensures AllLed(c, s, Entry(c, y))
  {
    var e := Entry(c, y);
    forall i | 0 <= i < |e| ensures Led(c, s, e[i]) {
      if e[i].Ask? {
        var z := e[i].m;
        assert z in Softs(c, y) by {
          var pre, post := c.soft[y].pre, c.soft[y].post;
          assert if i < |pre| then z == pre[i] else z == post[i - |pre| - 1];
        }
        LeadsSoft(c, y, z);
        if y != s {
          ReachesTransitive(AllDeps(c), s, y, z);
        }
      }
    }
  }

  lemma {:induction false} EntriesLed(c: Config, s: nat, ms: seq<nat>)
    requires IsConfig(c) && Below(ms, |c.soft|) && forall y :: y in ms ==> Leads(c, s, y)
    ensures AllLed(c, s, Entries(c, ms))
    decreases |ms|
  {
    if ms != [] {
      EntriesLed(c, s, ms[..|ms| - 1]);
      EntryLed(c, s, ms[|ms| - 1]);
    }
  }

  lemma BodyLed(c: Config, skip: Option<nat>, s: nat, m: nat)
    requires IsConfig(c) && m < |c.deps| && (m == s || Leads(c, s, m))
    ensures AllLed(c, s, Body(c, skip, m))
  {
    forall y | y in c.deps[m] ensures Leads(c, s, y) {
      LeadsSoft(c, m, y);
      if m != s {
        ReachesTransitive(AllDeps(c), s, m, y);
      }
    }
    EntriesLed(c, s, c.deps[m]);
    EntryLed(c, s, m);
  }

  /** The first `j` tasks are what `s` leads to, then `s` is put. */
  ghost predicate UnderAt(c: Config, s: nat, todo: seq<Task>, j: nat)
    requires |c.soft| == |c.deps|
  {
    j < |todo| && todo[j] == Put(s) && forall i :: 0 <= i < j ==> Led(c, s, todo[i])
  }

  ghost predicate Under(c: Config, s: nat, todo: seq<Task>)
    requires |c.soft| == |c.deps|
  {
    exists j: nat :: UnderAt(c, s, todo, j)
  }

  lemma UnderOwn(c: Config, skip: Option<nat>, s: nat, rest: seq<Task>)
    requires IsConfig(c) && s < |c.deps|
    ensures Under(c, s, Body(c, skip, s) + rest)
  {
    BodyLed(c, skip, s, s);
    var j := PutIn(c, skip, s);
    assert UnderAt(c, s, Body(c, skip, s) + rest, j);
  }

  lemma PutIn(c: Config, skip: Option<nat>, s: nat) returns (j: nat)
    requires IsConfig(c) && s < |c.deps|
    ensures j < |Body(c, skip, s)| && Body(c, skip, s)[j] == Put(s)
  {
    var own := Own(c, skip, s);
    var k := if skip != Some(s) && c.soft[s].Found? then |c.soft[s].pre| else 0;
    assert own[k] == Put(s);
    j := |Entries(c, c.deps[s])| + k;
  }

  /** A first task that does not put `s` out of the way. */
  lemma UnderNext(c: Config, skip: Option<nat>, s: nat, todo: seq<Task>)
    requires IsConfig(c) && todo != [] && todo[0] != Put(s) && Under(c, s, todo)
    ensures Under(c, s, todo[1..])
    ensures todo[0].Ask? && todo[0].m < |c.deps| ==> Under(c, s, Body(c, skip, todo[0].m) + todo[1..])
  {
    var j: nat :| UnderAt(c, s, todo, j);
    assert Led(c, s, todo[0]);
    UnderTail(c, s, todo, j);
    if todo[0].Ask? && todo[0].m < |c.deps| {
      BodyLed(c, skip, s, todo[0].m);
      UnderLonger(c, s, Body(c, skip, todo[0].m), todo[1..], j - 1);
    }
  }

  lemma UnderTail(c: Config, s: nat, todo: seq<Task>, j: nat)
    requires |c.soft| == |c.deps| && UnderAt(c, s, todo, j) && j > 0
    ensures UnderAt(c, s, todo[1..], j - 1)
  {
  }

  lemma UnderLonger(c: Config, s: nat, body: seq<Task>, rest: seq<Task>, j: nat)
    requires |c.soft| == |c.deps| && AllLed(c, s, body) && UnderAt(c, s, rest, j)
    ensures Under(c, s, body + rest)
  {
    assert UnderAt(c, s, body + rest, |body| + j);
  }

  lemma {:induction false} CarryExtends(c: Config, skip: Option<nat>, todo: seq<Task>, seen: set<nat>, out: seq<nat>)
    requires IsConfig(c)
    ensures out <= Carry(c, skip, todo, seen, out)
    decreases UpTo(|c.deps|) - seen, |todo|
  {
    if todo != [] {
      match todo[0]
      case Put(x) =>
        CarryExtends(c, skip, todo[1..], seen, out + [x]);
      case Ask(m) =>
        if m in seen || m >= |c.deps| {
          CarryExtends(c, skip, todo[1..], seen, out);
        } else {
          CarryExtends(c, skip, Body(c, skip, m) + todo[1..], seen + {m}, out);
        }
    }
  }

  /** Before `s` is on the list, nothing gets on it but what `s` leads to. */
  lemma {:induction false} Beneath(c: Config, skip: Option<nat>, s: nat, todo: seq<Task>, seen: set<nat>, out: seq<nat>,
                                   i: nat, y: nat)
    requires IsConfig(c) && Under(c, s, todo)
    requires var r := Carry(c, skip, todo, seen, out); i <= |r| && s !in r[..i] && y in r[..i]
    ensures y in out || Leads(c, s, y)
    decreases UpTo(|c.deps|) - seen, |todo|
  {
    var r := Carry(c, skip, todo, seen, out);
    match todo[0]
    case Put(x) =>
      if x == s {
        CarryExtends(c, skip, todo[1..], seen, out + [x]);
        PutEnds(out, x, r, i);
      } else {
        UnderNext(c, skip, s, todo);
        Beneath(c, skip, s, todo[1..], seen, out + [x], i, y);
      }
    case Ask(m) =>
      UnderNext(c, skip, s, todo);
      if m in seen || m >= |c.deps| {
        Beneath(c, skip, s, todo[1..], seen, out, i, y);
      } else {
        Beneath(c, skip, s, Body(c, skip, m) + todo[1..], seen + {m}, out, i, y);
      }
  }

  lemma AbsentAt(r: seq<nat>, i: nat, x: nat)
    requires i <= |r| && x !in r[..i]
    ensures forall k :: 0 <= k < i ==> r[k] != x
  {
    forall k | 0 <= k < i ensures r[k] != x {
      assert r[..i][k] == r[k];
    }
  }

  /** A part of the list without `x` is over when `x` is put. */
  lemma PutEnds(out: seq<nat>, x: nat, r: seq<nat>, i: nat)
    requires out + [x] <= r && i <= |r| && x !in r[..i]
    ensures i <= |out| && r[..i] == out[..i]
  {
    AbsentAt(r, i, x);
    assert r[|out|] == (out + [x])[|out|] == x;
  }

  // ----- up to the marker

  /** If `s` has been asked for and is not on the list, what comes up before it is what it leads to. */
  ghost predicate Open(c: Config, s: nat, todo: seq<Task>, seen: set<nat>, out: seq<nat>)
    requires |c.soft| == |c.deps|
  {
    s in seen && s !in out ==> Under(c, s, todo)
  }

  /** One task. */
  lemma OpenNext(c: Config, skip: Option<nat>, s: nat, todo: seq<Task>, seen: set<nat>, out: seq<nat>)
    requires IsConfig(c) && todo != [] && Open(c, s, todo, seen, out)
    ensures todo[0].Put? ==> Open(c, s, todo[1..], seen, out + [todo[0].x])
    ensures todo[0].Ask? ==> Open(c, s, todo[1..], seen, out)
    ensures todo[0].Ask? && todo[0].m < |c.deps| && todo[0].m !in seen ==>
      Open(c, s, Body(c, skip, todo[0].m) + todo[1..], seen + {todo[0].m}, out)
  {
    if s in seen && s !in out && todo[0] != Put(s) {
      UnderNext(c, skip, s, todo);
    }
    if todo[0] == Ask(s) && s < |c.deps| {
      UnderOwn(c, skip, s, todo[1..]);
    }
  }

  ghost predicate AllListed(g: ValidCutting, out: seq<nat>) {
    forall y :: y in out ==> Listed(Rest(g), g.skip, g.root, y)
  }

  /** The tasks `a` before the cut are done one by one, until the first marker comes up. */
  lemma {:induction false} Until(g: ValidCutting, s: nat, a: seq<Task>, b: seq<Task>, seen: set<nat>, out: seq<nat>)
    returns (b': seq<Task>, seen': set<nat>, out': seq<nat>)
    requires AllJustified(g, a) && FromMarker(g, b) && AllListed(g, out) && Open(g.c, s, a + b, seen, out)
    ensures Carry(g.c, g.skip, a + b, seen, out) == Carry(g.c, g.skip, b', seen', out')
    ensures FromMarker(g, b') && AllListed(g, out') && Open(g.c, s, b', seen', out')
    decreases UpTo(|g.c.deps|) - seen, |a|
  {
    if a == [] {
      assert a + b == b;
      b', seen', out' := b, seen, out;
    } else {
      assert (a + b)[1..] == a[1..] + b && (a + b)[0] == a[0];
      OpenNext(g.c, g.skip, s, a + b, seen, out);
      assert Justified(g, a[0]);
      match a[0]
      case Put(x) =>
        b', seen', out' := Until(g, s, a[1..], b, seen, out + [x]);
      case Ask(m) =>
        if m in seen || m >= |g.c.deps| {
          b', seen', out' := Until(g, s, a[1..], b, seen, out);
        } else {
          var p, q := Resplit(g, m, a[1..], b);
          b', seen', out' := Until(g, s, p, q, seen + {m}, out);
        }
    }
  }

  lemma Resplit(g: ValidCutting, m: nat, a: seq<Task>, b: seq<Task>) returns (p: seq<Task>, q: seq<Task>)
    requires m < |g.c.deps| && Needed(Rest(g), g.skip, g.root, m) && AllJustified(g, a) && FromMarker(g, b)
    ensures p + q == Body(g.c, g.skip, m) + (a + b) && AllJustified(g, p) && FromMarker(g, q)
  {
    p, q := BodySplit(g, m);
    FourParts(p, q, a, b);
    if q == [] {
      p, q := p + a, b;
    } else {
      q := q + a + b;
    }
  }

  lemma FourParts<T>(p: seq<T>, q: seq<T>, a: seq<T>, b: seq<T>)
    ensures p + q + (a + b) == p + (q + a + b) && (q == [] ==> p + q + (a + b) == (p + a) + b)
  {
  }

  lemma Started(g: ValidCutting, s: nat) returns (b: seq<Task>, seen: set<nat>, out: seq<nat>)
    ensures Probed(g.c, g.skip, g.root) == Carry(g.c, g.skip, b, seen, out)
    ensures FromMarker(g, b) && AllListed(g, out) && Open(g.c, s, b, seen, out)
  {
    assert [Ask(g.root)] + [] == [Ask(g.root)];
    b, seen, out := Until(g, s, [Ask(g.root)], [], {}, []);
  }

  // ----- the laws

  lemma InFront<T>(a: seq<T>, r: seq<T>, i: nat, y: T)
    requires a <= r && i <= |a| && y in r[..i]
    ensures y in a
  {
    var k :| 0 <= k < |r[..i]| && r[..i][k] == y;
    assert a[k] == r[k];
  }

  /** A cut at the module itself. */
  lemma SelfLaw(g: ValidCutting, i: nat, y: nat)
    requires g.pos == |g.c.soft[g.x].pre| && Before(Probed(g.c, g.skip, g.root), i, y, g.x)
    ensures Listed(Rest(g), g.skip, g.root, y)
  {
    var r := Probed(g.c, g.skip, g.root);
    var b, seen, out := Started(g, g.x);
    if b == [] {
      assert y in out;
    } else {
      assert b[0] == Put(g.x);
      CarryExtends(g.c, g.skip, b[1..], seen, out + [g.x]);
      PutEnds(out, g.x, r, i);
    }
  }

  /** A cut at one of its soft dependencies. */
  lemma SoftLaw(g: ValidCutting, s: nat, i: nat, y: nat)
    requires Marker(g) == Ask(s) && Before(Probed(g.c, g.skip, g.root), i, y, s)
    ensures Listed(Rest(g), g.skip, g.root, y) || Leads(g.c, s, y)
  {
    var r := Probed(g.c, g.skip, g.root);
    var b, seen, out := Started(g, s);
    CarryExtends(g.c, g.skip, b, seen, out);
    if s in out {
      Already(out, r, i, s);
      InFront(out, r, i, y);
    } else if b != [] {
      MarkerSoft(g, s);
      if s in seen {
        Beneath(g.c, g.skip, s, b, seen, out, i, y);
      } else {
        UnderOwn(g.c, g.skip, s, b[1..]);
        Beneath(g.c, g.skip, s, Body(g.c, g.skip, s) + b[1..], seen + {s}, out, i, y);
      }
    }
  }

  lemma MarkerSoft(g: ValidCutting, s: nat)
    requires Marker(g) == Ask(s)
    ensures s < |g.c.deps|
  {
    var pre, post := g.c.soft[g.x].pre, g.c.soft[g.x].post;
    assert if g.pos < |pre| then s == pre[g.pos] else s == post[g.pos - |pre| - 1];
  }

  lemma Already(out: seq<nat>, r: seq<nat>, i: nat, s: nat)
    requires out <= r && i <= |r| && s in out && s !in r[..i]
    ensures i <= |out|
  {
    AbsentAt(r, i, s);
    var k :| 0 <= k < |out| && out[k] == s;
    assert r[k] == s;
  }

  /** All three laws hold of every probe list. */
  lemma PostAfterLaw(c: Config, skip: Option<nat>, root: nat)
    requires IsConfig(c) && root < |c.deps|
    ensures PostAfter(c, skip, root, Probed(c, skip, root))
  {
    var list := Probed(c, skip, root);
    forall x: nat, i: nat, y: nat | x < |c.soft| && c.soft[x].Found? && Before(list, i, y, x)
      ensures Remains(c, skip, root, x, c.soft[x].pre, [], y)
    {
      assert c.soft[x].pre[..|c.soft[x].pre|] == c.soft[x].pre;
      SelfLaw(Cutting(c, skip, root, x, |c.soft[x].pre|), i, y);
    }
  }

  lemma PreInOrderLaw(c: Config, skip: Option<nat>, root: nat)
    requires IsConfig(c) && root < |c.deps|
    ensures PreInOrder(c, skip, root, Probed(c, skip, root))
  {
    var list := Probed(c, skip, root);
    forall x: nat, k: nat, i: nat, y: nat |
      x < |c.soft| && c.soft[x].Found? && k < |c.soft[x].pre| && Before(list, i, y, c.soft[x].pre[k])
      ensures Remains(c, skip, root, x, c.soft[x].pre[..k], [], y) || Leads(c, c.soft[x].pre[k], y)
    {
      SoftLaw(Cutting(c, skip, root, x, k), c.soft[x].pre[k], i, y);
    }
  }

  lemma PostInOrderLaw(c: Config, skip: Option<nat>, root: nat)
    requires IsConfig(c) && root < |c.deps|
    ensures PostInOrder(c, skip, root, Probed(c, skip, root))
  {
    var list := Probed(c, skip, root);
    forall x: nat, k: nat, i: nat, y: nat |
      x < |c.soft| && c.soft[x].Found? && k < |c.soft[x].post| && Before(list, i, y, c.soft[x].post[k])
      ensures Remains(c, skip, root, x, c.soft[x].pre, c.soft[x].post[..k], y) || Leads(c, c.soft[x].post[k], y)
    {
      SoftLaw(Cutting(c, skip, root, x, |c.soft[x].pre| + 1 + k), c.soft[x].post[k], i, y);
    }
  }

  // ----- one module and its leaves

  /** A module without dependencies of either kind. */
  predicate IsLeaf(c: Config, m: nat) {
    m < |c.deps| && m < |c.soft| && c.deps[m] == [] && c.soft[m] == Found([], [])
  }

  lemma {:induction false} LeavesPut(c: Config, skip: Option<nat>, ms: seq<nat>, rest: seq<Task>, seen: set<nat>,
                                     out: seq<nat>)
    requires IsConfig(c) && Distinct(ms) && forall m :: m in ms ==> IsLeaf(c, m) && m !in seen
    ensures Carry(c, skip, Asks(ms) + rest, seen, out) == Carry(c, skip, rest, seen + Elements(ms), out + ms)
    decreases |ms|
  {
    if ms == [] {
      assert Asks(ms) + rest == rest && seen + Elements(ms) == seen && out + ms == out;
    } else {
      var todo := Asks(ms) + rest;
      LeavesHead(ms, rest, seen, out);
      LeafPut(c, skip, ms[0], todo, seen, out);
      LeavesPut(c, skip, ms[1..], rest, seen + {ms[0]}, out + [ms[0]]);
    }
  }

  lemma LeavesHead(ms: seq<nat>, rest: seq<Task>, seen: set<nat>, out: seq<nat>)
    requires ms != []
    ensures (Asks(ms) + rest)[0] == Ask(ms[0]) && (Asks(ms) + rest)[1..] == Asks(ms[1..]) + rest
    ensures seen + Elements(ms) == seen + {ms[0]} + Elements(ms[1..]) && out + ms == out + [ms[0]] + ms[1..]
  {
  }

  lemma LeafPut(c: Config, skip: Option<nat>, m: nat, todo: seq<Task>, seen: set<nat>, out: seq<nat>)
    requires IsConfig(c) && IsLeaf(c, m) && m !in seen && todo != [] && todo[0] == Ask(m)
    ensures Carry(c, skip, todo, seen, out) == Carry(c, skip, todo[1..], seen + {m}, out + [m])
  {
    assert Entries(c, c.deps[m]) == [] && Entry(c, m) == [Put(m)];
    assert Body(c, skip, m) == [Put(m)];
    assert ([Put(m)] + todo[1..])[1..] == todo[1..];
  }

  /** A module with soft dependencies that are leaves: those to come before it, itself, those to come after it. */
  lemma Flat(c: Config, root: nat, pre: seq<nat>, post: seq<nat>)
    requires IsConfig(c) && root < |c.deps| && c.deps[root] == [] && c.soft[root] == Found(pre, post)
    requires Distinct(pre) && Distinct(post) && root !in pre && root !in post && forall m :: m in pre ==> m !in post
    requires forall m :: m in pre ==> IsLeaf(c, m)
    requires forall m :: m in post ==> IsLeaf(c, m)
    ensures Probed(c, None, root) == pre + [root] + post
  {
    var later, seen := [Put(root)] + Asks(post), {root} + Elements(pre);
    assert [Ask(root)][1..] == [] && {} + {root} == {root};
    assert Entries(c, c.deps[root]) == [] && Body(c, None, root) + [] == Asks(pre) + later;
    assert Probed(c, None, root) == Carry(c, None, Asks(pre) + later, {root}, []);
    LeavesPut(c, None, pre, later, {root}, []);
    assert later[1..] == Asks(post) && [] + pre == pre && Asks(post) + [] == Asks(post);
    assert Carry(c, None, later, seen, pre) == Carry(c, None, Asks(post), seen, pre + [root]);
    LeavesPut(c, None, post, [], seen, pre + [root]);
  }
}
