/** The connection set whose size is counted by separate goroutines. */
module ConnSet {

  type Client = nat
  type Goroutine = nat

  /** How far a goroutine has got with a call on one client: past the lookup, past
      the store or delete but not yet past starting the counting goroutine. */
  datatype Task =
    | Ready
    | Adding(c: Client)
    | Added(c: Client)
    | Removing(c: Client)
    | Removed(c: Client)

  /** `incs` and `decs` are counting goroutines that have been started but have not run. */
  datatype State = State(m: set<Client>, n: int, incs: nat, decs: nat, tasks: map<Goroutine, Task>)

  datatype Event =
    | CallAdd(g: Goroutine, c: Client)
    | Store(g: Goroutine)
    | SpawnInc(g: Goroutine)
    | CallRemove(g: Goroutine, c: Client)
    | Delete(g: Goroutine)
    | SpawnDec(g: Goroutine)
    | RunInc
    | RunDec

  function TaskOf(s: State, g: Goroutine): Task {
    if g in s.tasks then s.tasks[g] else Ready
  }

  predicate Enabled(s: State, e: Event) {
    match e
    case CallAdd(g, _) => TaskOf(s, g).Ready?
    case Store(g) => TaskOf(s, g).Adding?
    case SpawnInc(g) => TaskOf(s, g).Added?
    case CallRemove(g, _) => TaskOf(s, g).Ready?
    case Delete(g) => TaskOf(s, g).Removing?
    case SpawnDec(g) => TaskOf(s, g).Removed?
    case RunInc => s.incs > 0
    case RunDec => s.decs > 0
  }

  /** A call returns at once when its lookup already decides it. */
  function Apply(s: State, e: Event): State
    requires Enabled(s, e)
  {
    match e
    case CallAdd(g, c) => if c in s.m then s else s.(tasks := s.tasks[g := Adding(c)])
    case Store(g) => var c := TaskOf(s, g).c; s.(m := s.m + {c}, tasks := s.tasks[g := Added(c)])
    case SpawnInc(g) => s.(incs := s.incs + 1, tasks := s.tasks[g := Ready])
    case CallRemove(g, c) => if c !in s.m then s else s.(tasks := s.tasks[g := Removing(c)])
    case Delete(g) => var c := TaskOf(s, g).c; s.(m := s.m - {c}, tasks := s.tasks[g := Removed(c)])
    case SpawnDec(g) => s.(decs := s.decs + 1, tasks := s.tasks[g := Ready])
    case RunInc => s.(n := s.n + 1, incs := s.incs - 1)
    case RunDec => s.(n := s.n - 1, decs := s.decs - 1)
  }

  ghost predicate Run(s: State, es: seq<Event>, t: State)
    decreases |es|
  {
    if es == [] then s == t else Enabled(s, es[0]) && Run(Apply(s, es[0]), es[1..], t)
  }

  const EMPTY := State({}, 0, 0, 0, map[])

  /** Each client is added and removed by its own goroutine only. */
  ghost predicate Owned(owner: Client -> Goroutine, es: seq<Event>) {
    forall k :: 0 <= k < |es| ==>
      (es[k].CallAdd? ==> es[k].g == owner(es[k].c)) && (es[k].CallRemove? ==> es[k].g == owner(es[k].c))
  }

  /** Goroutines that have stored a client without having started its count ... */
  function ToCount(tasks: map<Goroutine, Task>): set<Goroutine> {
    set g | g in tasks && tasks[g].Added?
  }

  /** ... and those that have deleted one. */
  function ToUncount(tasks: map<Goroutine, Task>): set<Goroutine> {
    set g | g in tasks && tasks[g].Removed?
  }

  /** Counts done, started and about to be started add up to the size of the set. */
  predicate Balanced(s: State) {
    s.n + s.incs - s.decs + |ToCount(s.tasks)| - |ToUncount(s.tasks)| == |s.m|
  }

  /** What each unfinished call may rely on, and that it is the owner's call. */
  ghost predicate TaskInv(owner: Client -> Goroutine, s: State) {
    forall g :: g in s.tasks ==>
      match s.tasks[g]
      case Ready => true
      case Adding(c) => c !in s.m && g == owner(c)
      case Added(c) => c in s.m && g == owner(c)
      case Removing(c) => c in s.m && g == owner(c)
      case Removed(c) => c !in s.m && g == owner(c)
  }

  lemma TaskChanged(tasks: map<Goroutine, Task>, g: Goroutine, t: Task)
    ensures |ToCount(tasks[g := t])| == |ToCount(tasks)| + (if t.Added? then 1 else 0) - (if g in ToCount(tasks) then 1 else 0)
    ensures |ToUncount(tasks[g := t])| == |ToUncount(tasks)| + (if t.Removed? then 1 else 0) - (if g in ToUncount(tasks) then 1 else 0)
  {
    CountChanged(tasks, g, t);
    UncountChanged(tasks, g, t);
  }

  lemma CountChanged(tasks: map<Goroutine, Task>, g: Goroutine, t: Task)
    ensures |ToCount(tasks[g := t])| == |ToCount(tasks)| + (if t.Added? then 1 else 0) - (if g in ToCount(tasks) then 1 else 0)
  {
    var now := tasks[g := t];
    forall x
      ensures x in ToCount(now) - {g} <==> x in ToCount(tasks) - {g}
    {
    }
    SizeChanged(ToCount(now), ToCount(tasks), g);
  }

  lemma UncountChanged(tasks: map<Goroutine, Task>, g: Goroutine, t: Task)
    ensures |ToUncount(tasks[g := t])| == |ToUncount(tasks)| + (if t.Removed? then 1 else 0) - (if g in ToUncount(tasks) then 1 else 0)
  {
    var now := tasks[g := t];
    forall x
      ensures x in ToUncount(now) - {g} <==> x in ToUncount(tasks) - {g}
    {
    }
    SizeChanged(ToUncount(now), ToUncount(tasks), g);
  }

  lemma SizeChanged(now: set<Goroutine>, was: set<Goroutine>, g: Goroutine)
    requires forall x :: x in now - {g} <==> x in was - {g}
    ensures |now| == |was| + (if g in now then 1 else 0) - (if g in was then 1 else 0)
  {
    assert now - {g} == was - {g};
    Without(now, g);
    Without(was, g);
  }

  lemma Without(s: set<Goroutine>, g: Goroutine)
    ensures |s| == |s - {g}| + if g in s then 1 else 0
  {
    if g in s { assert s == s - {g} + {g}; } else { assert s == s - {g}; }
  }

  lemma StepKeepsTasks(owner: Client -> Goroutine, s: State, e: Event)
    requires TaskInv(owner, s) && Enabled(s, e) && Owned(owner, [e])
    ensures TaskInv(owner, Apply(s, e))
  {
    assert [e][0] == e;
  }

  lemma StepKeepsBalance(owner: Client -> Goroutine, s: State, e: Event)
    requires TaskInv(owner, s) && Balanced(s) && Enabled(s, e)
    ensures Balanced(Apply(s, e))
  {
    var t := Apply(s, e);
    if !e.RunInc? && !e.RunDec? && t != s {
      TaskChanged(s.tasks, e.g, t.tasks[e.g]);
    }
  }

  lemma {:induction false} RunKeepsBalance(owner: Client -> Goroutine, s: State, es: seq<Event>, t: State)
    requires TaskInv(owner, s) && Balanced(s) && Owned(owner, es) && Run(s, es, t)
    ensures TaskInv(owner, t) && Balanced(t)
    decreases |es|
  {
    if es != [] {
      assert Owned(owner, [es[0]]);
      StepKeepsTasks(owner, s, es[0]);
      StepKeepsBalance(owner, s, es[0]);
      RunKeepsBalance(owner, Apply(s, es[0]), es[1..], t);
    }
  }

  /** In every interleaving in which clients have owners, the length that `Len` reads
      is off by exactly the counts that are not done. */
  lemma LenAtAnyTime(owner: Client -> Goroutine, es: seq<Event>, t: State)
    requires Owned(owner, es) && Run(EMPTY, es, t)
    ensures |t.m| - t.n == t.incs + |ToCount(t.tasks)| - t.decs - |ToUncount(t.tasks)|
  {
    assert ToCount(EMPTY.tasks) == {} && ToUncount(EMPTY.tasks) == {};
    RunKeepsBalance(owner, EMPTY, es, t);
  }

  predicate Quiet(s: State) {
    s.incs == 0 && s.decs == 0 && forall g :: g in s.tasks ==> s.tasks[g].Ready?
  }

  /** `Len` equals the size of the set whenever no call and no count is under way. */
  lemma LenAtQuiescence(owner: Client -> Goroutine, es: seq<Event>, t: State)
    requires Owned(owner, es) && Run(EMPTY, es, t) && Quiet(t)
    ensures t.n == |t.m|
  {
    LenAtAnyTime(owner, es, t);
    assert ToCount(t.tasks) == {} && ToUncount(t.tasks) == {};
  }

  // ------------------------------------------------- calls by themselves

  /** The steps of one call and of its count. */
  function AddSteps(g: Goroutine, c: Client): seq<Event> {
    [CallAdd(g, c), Store(g), SpawnInc(g), RunInc]
  }

  function RemoveSteps(g: Goroutine, c: Client): seq<Event> {
    [CallRemove(g, c), Delete(g), SpawnDec(g), RunDec]
  }

  /** A call that nobody disturbs adds the client and counts it, or changes nothing if
      the client is there. */
  lemma AddByItself(s: State, g: Goroutine, c: Client) returns (t: State)
    requires TaskOf(s, g).Ready?
    ensures Run(s, if c in s.m then [CallAdd(g, c)] else AddSteps(g, c), t)
    ensures if c in s.m then t == s else t == s.(m := s.m + {c}, n := s.n + 1, tasks := s.tasks[g := Ready])
  {
    if c in s.m {
      t := s;
      assert [CallAdd(g, c)][1..] == [];
    } else {
      var u := Apply(Apply(s, CallAdd(g, c)), Store(g));
      t := Apply(Apply(u, SpawnInc(g)), RunInc);
      Two(s, CallAdd(g, c), Store(g));
      Two(u, SpawnInc(g), RunInc);
      Join(s, [CallAdd(g, c), Store(g)], u, [SpawnInc(g), RunInc], t);
      assert t.tasks == s.tasks[g := Ready];
    }
  }

  /** And one that removes it takes it out and uncounts it, or changes nothing. */
  lemma RemoveByItself(s: State, g: Goroutine, c: Client) returns (t: State)
    requires TaskOf(s, g).Ready?
    ensures Run(s, if c !in s.m then [CallRemove(g, c)] else RemoveSteps(g, c), t)
    ensures if c !in s.m then t == s else t == s.(m := s.m - {c}, n := s.n - 1, tasks := s.tasks[g := Ready])
  {
    if c !in s.m {
      t := s;
      assert [CallRemove(g, c)][1..] == [];
    } else {
      var u := Apply(Apply(s, CallRemove(g, c)), Delete(g));
      t := Apply(Apply(u, SpawnDec(g)), RunDec);
      Two(s, CallRemove(g, c), Delete(g));
      Two(u, SpawnDec(g), RunDec);
      Join(s, [CallRemove(g, c), Delete(g)], u, [SpawnDec(g), RunDec], t);
      assert t.tasks == s.tasks[g := Ready];
    }
  }

  // ---------------------------------------------------------- without owners

  lemma {:induction false} Join(s: State, es: seq<Event>, u: State, fs: seq<Event>, t: State)
    requires Run(s, es, u) && Run(u, fs, t)
    ensures Run(s, es + fs, t)
    decreases |es|
  {
    if es == [] {
      assert es + fs == fs;
    } else {
      assert (es + fs)[0] == es[0] && (es + fs)[1..] == es[1..] + fs;
      Join(Apply(s, es[0]), es[1..], u, fs, t);
    }
  }

  lemma Two(s: State, e: Event, f: Event)
    requires Enabled(s, e) && Enabled(Apply(s, e), f)
    ensures Run(s, [e, f], Apply(Apply(s, e), f))
  {
    assert [e, f][1..] == [f] && [f][1..] == [];
  }

  /** The rest of a call that has passed its lookup, when nobody comes in between. */
  lemma FinishAdd(s: State, g: Goroutine, c: Client) returns (t: State)
    requires TaskOf(s, g) == Adding(c)
    ensures Run(s, [Store(g), SpawnInc(g)], t)
    ensures t == s.(m := s.m + {c}, incs := s.incs + 1, tasks := s.tasks[g := Ready])
  {
    t := Apply(Apply(s, Store(g)), SpawnInc(g));
    Two(s, Store(g), SpawnInc(g));
    assert t.tasks == s.tasks[g := Ready];
  }

  /** Without owners it does not: from every quiet state two goroutines can add one
      client in such a way that it is counted twice for good. */
  lemma SharedClientIsCountedTwice(s: State, c: Client, g: Goroutine, h: Goroutine) returns (es: seq<Event>, t: State)
    requires Quiet(s) && c !in s.m && g != h
    ensures Run(s, es, t) && Quiet(t) && t.m == s.m + {c} && t.n == s.n + 2
  {
    var u := Apply(Apply(s, CallAdd(g, c)), CallAdd(h, c));
    Two(s, CallAdd(g, c), CallAdd(h, c));
    var v := FinishAdd(u, g, c);
    var w := FinishAdd(v, h, c);
    t := Apply(Apply(w, RunInc), RunInc);
    Two(w, RunInc, RunInc);
    var e1, e2 := [CallAdd(g, c), CallAdd(h, c)], [Store(g), SpawnInc(g)];
    var e3, e4 := [Store(h), SpawnInc(h)], [RunInc, RunInc];
    Join(s, e1, u, e2, v);
    Join(s, e1 + e2, v, e3, w);
    Join(s, e1 + e2 + e3, w, e4, t);
    es := e1 + e2 + e3 + e4;
  }
}
