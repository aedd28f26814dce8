/** Round trips over one upstream pool: the connection loop, the writer, listener
    and timer goroutines of every attempt, and all their interleavings. */
module RoundTrip {
  import opened Wrappers
  import opened Literal
  import opened Pool

  // ------------------------------------------------------------- the state

  datatype Writer = Writing | WriteFailed | WriterDone
  datatype Listener = Listening | Returned(ok: bool) | Cancelled(ok: bool) | ListenerDone
  datatype Timer = Unstarted | Asleep | Firing | Gone

  /** sync.Once: a second caller waits while the first one's function is running. */
  datatype Once = Fresh | Running | Done

  /** One tryRoundTrip whose `Open` succeeded. The last four fields are its history:
      what became of its timeout, whether writing or listening failed, and whether one
      of its goroutines has closed the pool. */
  datatype Attempt = Attempt(conn: ConnId, writer: Writer, listener: Listener, timer: Timer, once: Once, returned: bool,
                             timeoutCloses: nat, cancelWon: bool, failed: bool, broken: bool)

  /** The request body behind the stats wrapper: `peeked` is what the look at the
      first 8192 bytes put back in front of `rest`. */
  datatype RequestBody = NoBody | Wrapped(original: Bytes, peeked: Bytes, rest: Bytes, used: bool, seen: Bytes)

  /** The goroutine of the connection loop. `opens` counts the attempts of the trip. */
  datatype Main =
    | Idle
    | Opening(d: Dest, opens: nat)
    | Waiting(i: nat, opens: nat)
    | Stopped

  datatype State = State(pool: Pool, maxConns: nat, attempts: seq<Attempt>, main: Main, body: RequestBody)

  /** A step of one attempt's goroutines, or of the loop waiting for them. */
  datatype Action =
    | BodyRead(n: nat)
    | BodyClose
    | WriteOk
    | WriteFail
    | WriterClose
    | ListenReturn(ok: bool)
    | Cancel
    | ListenerClose
    | TimerWakes
    | TimerClose
    | Join

  datatype Event =
    | Begin(d: Dest, data: Option<Bytes>, peek: nat)
    | Open(dial: Option<ConnId>)
    | Shutdown
    | RemoteClose(id: ConnId)
    | Of(i: nat, act: Action)

  const PEEK := 8192

  predicate Enabled(s: State, e: Event) {
    match e
    case Begin(d, data, peek) =>
      s.main.Idle? && ':' !in d.scheme && peek <= PEEK && (data.Some? ==> peek <= |data.value|)
    case Open(dial) => s.main.Opening? && (dial.Some? ==> dial.value !in s.pool.dialled)
    case Shutdown => s.main.Idle?
    case RemoteClose(_) => true
    case Of(i, act) =>
      && i < |s.attempts| && Can(s.attempts[i], act)
      && (act.BodyRead? ==> s.body.Wrapped? && act.n <= |NextPart(s.body)|)
      && (act.BodyClose? ==> s.body.Wrapped?)
      && (act.Join? ==> s.main.Waiting? && s.main.i == i)
  }

  /** Whether an attempt's own goroutines allow the action; a goroutine that calls
      into a running Once is blocked. */
  predicate Can(a: Attempt, act: Action) {
    match act
    case BodyRead(_) => a.writer.Writing?
    case BodyClose => a.writer.Writing?
    case WriteOk => a.writer.Writing?
    case WriteFail => a.writer.Writing?
    case WriterClose => a.writer.WriteFailed?
    case ListenReturn(_) => a.listener.Listening?
    case Cancel => a.listener.Returned? && !a.once.Running?
    case ListenerClose => a.listener.Cancelled?
    case TimerWakes => a.timer.Asleep? && !a.once.Running?
    case TimerClose => a.timer.Firing?
    case Join => a.writer.WriterDone? && a.listener.ListenerDone?
  }

  function NextPart(b: RequestBody): Bytes
    requires b.Wrapped?
  {
    if b.peeked != [] then b.peeked else b.rest
  }

  function NewAttempt(conn: ConnId): Attempt {
    Attempt(conn, Writing, Listening, Unstarted, Fresh, false, 0, false, false, false)
  }

  /** Whether RoundTrip tries again after `Open` has failed. */
  predicate Retries(s: State, opens: nat) {
    opens == 0 && (s.body.Wrapped? ==> !s.body.used)
  }

  function AfterOpen(s: State, p: Pool): State
    requires s.main.Opening?
  {
    match p.conn
    case Some(c) => s.(pool := p, attempts := s.attempts + [NewAttempt(c)], main := Waiting(|s.attempts|, s.main.opens + 1))
    case None => s.(pool := p, main := if Retries(s, s.main.opens) then Opening(s.main.d, 1) else Idle)
  }

  /** One read through the wrapper: the peeked bytes first, then the rest. */
  function ReadBody(b: RequestBody, n: nat): RequestBody
    requires b.Wrapped? && n <= |NextPart(b)|
  {
    if b.peeked != [] then b.(used := true, seen := b.seen + b.peeked[..n], peeked := b.peeked[n..])
    else b.(used := true, seen := b.seen + b.rest[..n], rest := b.rest[n..])
  }

  function Advance(a: Attempt, act: Action): Attempt
    requires Can(a, act)
  {
    match act
    case BodyRead(_) => a
    case BodyClose => a
    case WriteOk => a.(writer := WriterDone, timer := Asleep)
    case WriteFail => a.(writer := WriteFailed, failed := true)
    case WriterClose => a.(writer := WriterDone, broken := true)
    case ListenReturn(ok) => a.(listener := Returned(ok), failed := a.failed || !ok)
    case Cancel => a.(listener := Cancelled(a.listener.ok), once := Done, cancelWon := a.once.Fresh? || a.cancelWon)
    case ListenerClose => a.(listener := ListenerDone, broken := a.broken || a.listener == Cancelled(false))
    case TimerWakes => if a.once.Fresh? then a.(once := Running, timer := Firing) else a.(timer := Gone)
    case TimerClose => a.(once := Done, timer := Gone, timeoutCloses := a.timeoutCloses + 1, broken := true)
    case Join => a.(returned := true)
  }

  /** The writer and the listener close the pool after an error, the timer when its
      function runs. */
  predicate Closes(a: Attempt, act: Action) {
    act.WriterClose? || act.TimerClose? || (act.ListenerClose? && a.listener == Cancelled(false))
  }

  function BodyAfter(b: RequestBody, act: Action): RequestBody
    requires act.BodyRead? ==> b.Wrapped? && act.n <= |NextPart(b)|
    requires act.BodyClose? ==> b.Wrapped?
  {
    match act
    case BodyRead(n) => ReadBody(b, n)
    case BodyClose => b.(used := true)
    case _ => b
  }

  function Apply(s: State, e: Event): State
    requires Enabled(s, e)
  {
    match e
    case Begin(d, data, peek) =>
      s.(main := Opening(d, 0),
         body := match data
                 case None => NoBody
                 case Some(b) => Wrapped(b, b[..peek], b[peek..], false, []))
    case Open(dial) => AfterOpen(s, Opened(s.pool, s.maxConns, s.main.d, dial))
    case Shutdown => s.(pool := Closed(s.pool), main := Stopped)
    case RemoteClose(id) => s.(pool := s.pool.(closed := s.pool.closed + {id}))
    case Of(i, act) =>
      var a := s.attempts[i];
      s.(attempts := s.attempts[i := Advance(a, act)],
         pool := if Closes(a, act) then Closed(s.pool) else s.pool,
         main := if act.Join? then Idle else s.main,
         body := BodyAfter(s.body, act))
  }

  ghost predicate Run(s: State, es: seq<Event>, t: State)
    decreases |es|
  {
    if es == [] then s == t else Enabled(s, es[0]) && Run(Apply(s, es[0]), es[1..], t)
  }

  function Start(maxConns: nat): State {
    State(Pool(map[], None, map[], {}), maxConns, [], Idle, NoBody)
  }

  // ---------------------------------------------------------- the invariant

  /** How the goroutines of one attempt and its sync.Once hang together. */
  predicate AttemptInv(a: Attempt) {
    && (a.once.Running? <==> a.timer.Firing?)
    && (a.listener.Cancelled? || a.listener.ListenerDone? ==> a.once.Done?)
    && (a.returned ==> a.writer.WriterDone? && a.listener.ListenerDone?)
    && (a.timer.Unstarted? || a.writer.WriterDone?)
    && (a.writer.WriterDone? && a.timer.Unstarted? ==> a.broken)
    && (a.timer.Gone? ==> a.once.Done?)
    && a.timeoutCloses <= 1
    && (a.once.Done? <==> a.cancelWon || a.timeoutCloses == 1)
    && !(a.cancelWon && a.timeoutCloses == 1)
    && (a.timeoutCloses == 1 ==> a.timer.Gone? && a.broken)
    && (a.failed ==> a.broken || a.writer.WriteFailed? || a.listener == Returned(false) || a.listener == Cancelled(false))
  }

  /** The connection of an attempt that failed or timed out is closed and out of the pool. */
  predicate Retired(p: Pool, a: Attempt) {
    && a.conn in p.dialled
    && (a.broken ==> a.conn in p.closed && a.conn !in p.conns.Values)
  }

  /** No later attempt was given the connection of one that failed or timed out. */
  predicate NotReused(attempts: seq<Attempt>) {
    forall i, j :: 0 <= i < j < |attempts| && attempts[i].broken ==> attempts[j].conn != attempts[i].conn
  }

  predicate AttemptsInv(attempts: seq<Attempt>) {
    forall i :: 0 <= i < |attempts| ==> AttemptInv(attempts[i])
  }

  predicate AllRetired(s: State) {
    forall i :: 0 <= i < |s.attempts| ==> Retired(s.pool, s.attempts[i])
  }

  /** Only the attempt that the loop waits for has not returned. */
  predicate MainInv(s: State) {
    && (forall i :: 0 <= i < |s.attempts| ==>
          (s.attempts[i].returned <==> !(s.main.Waiting? && s.main.i == i)))
    && (s.main.Waiting? ==> s.main.i == |s.attempts| - 1 && 1 <= s.main.opens <= 2)
    && (s.main.Opening? ==> s.main.opens <= 1 && ':' !in s.main.d.scheme)
  }

  /** The body is conserved, and untouched as long as an attempt is still to be opened. */
  predicate BodyInv(s: State) {
    s.body.Wrapped? ==>
      && s.body.seen + s.body.peeked + s.body.rest == s.body.original
      && (s.body.seen != [] ==> s.body.used)
      && (s.main.Opening? ==> !s.body.used)
  }

  ghost predicate Good(s: State) {
    && AttemptsInv(s.attempts) && MainInv(s) && BodyInv(s)
    && Inv(s.pool, s.maxConns)
    && (s.main.Stopped? ==> AllClosed(s.pool))
    && AllRetired(s) && NotReused(s.attempts)
  }

  lemma AdvanceKeepsInv(a: Attempt, act: Action)
    requires AttemptInv(a) && Can(a, act)
    ensures AttemptInv(Advance(a, act))
  {
  }

  lemma AttemptsStep(s: State, e: Event)
    requires Enabled(s, e) && AttemptsInv(s.attempts)
    ensures AttemptsInv(Apply(s, e).attempts)
  {
    if e.Of? { AdvanceKeepsInv(s.attempts[e.i], e.act); }
  }

  lemma PoolStep(s: State, e: Event)
    requires Enabled(s, e) && MainInv(s) && Inv(s.pool, s.maxConns) && (s.main.Stopped? ==> AllClosed(s.pool))
    ensures Inv(Apply(s, e).pool, s.maxConns)
    ensures Apply(s, e).main.Stopped? ==> AllClosed(Apply(s, e).pool)
  {
    CloseKeepsInv(s.pool, s.maxConns);
    if e.Open? { OpenKeepsInv(s.pool, s.maxConns, s.main.d, e.dial); }
  }

  lemma ReadConserves(b: RequestBody, n: nat)
    requires b.Wrapped? && n <= |NextPart(b)|
    ensures var c := ReadBody(b, n);
            c.seen + c.peeked + c.rest == b.seen + b.peeked + b.rest
  {
    var part := NextPart(b);
    assert part[..n] + part[n..] == part;
    assert b.peeked == [] ==> b.seen + b.peeked == b.seen;
  }

  lemma BodyStep(s: State, e: Event)
    requires Enabled(s, e) && MainInv(s) && BodyInv(s)
    requires e.Of? ==> AttemptInv(s.attempts[e.i])
    ensures BodyInv(Apply(s, e))
  {
    if e.Begin? && e.data.Some? {
      assert [] + e.data.value[..e.peek] + e.data.value[e.peek..] == e.data.value;
    }
    if e.Of? && e.act.BodyRead? {
      ReadConserves(s.body, e.act.n);
    }
  }

  lemma MainStep(s: State, e: Event)
    requires Enabled(s, e) && MainInv(s)
    ensures MainInv(Apply(s, e))
  {
  }

  lemma RetiredStep(s: State, e: Event)
    requires Enabled(s, e) && MainInv(s) && Inv(s.pool, s.maxConns) && AllRetired(s)
    ensures AllRetired(Apply(s, e))
  {
    var t := Apply(s, e);
    CloseKeepsInv(s.pool, s.maxConns);
    forall i | 0 <= i < |t.attempts|
      ensures Retired(t.pool, t.attempts[i])
    {
      if e.Open? {
        RetiredByOpen(s, e.dial, i);
      } else {
        assert Retired(s.pool, s.attempts[i]);
      }
    }
  }

  lemma RetiredByOpen(s: State, dial: Option<ConnId>, i: nat)
    requires Enabled(s, Open(dial)) && MainInv(s) && Inv(s.pool, s.maxConns) && AllRetired(s)
    requires i < |Apply(s, Open(dial)).attempts|
    ensures var t := Apply(s, Open(dial)); Retired(t.pool, t.attempts[i])
  {
    OpenedForRequest(s.pool, s.maxConns, s.main.d, dial);
    assert i < |s.attempts| ==> Retired(s.pool, s.attempts[i]);
  }

  /** `Open` never hands out a connection that is closed and out of the pool. */
  lemma OpenAvoidsRetired(s: State, dial: Option<ConnId>, a: Attempt)
    requires Enabled(s, Open(dial)) && Retired(s.pool, a) && a.broken
    ensures var p := Opened(s.pool, s.maxConns, s.main.d, dial); p.conn.Some? ==> p.conn.value != a.conn
  {
    var key := KeyOf(s.main.d);
    if key in s.pool.conns { assert s.pool.conns[key] in s.pool.conns.Values; }
  }

  /** An attempt that has returned cannot break its connection any more. */
  lemma BrokenBefore(s: State, i: nat, act: Action)
    requires Enabled(s, Of(i, act)) && MainInv(s) && AttemptInv(s.attempts[i]) && i < |s.attempts| - 1
    ensures Advance(s.attempts[i], act).broken == s.attempts[i].broken
  {
  }

  lemma NotReusedStep(s: State, e: Event)
    requires Enabled(s, e) && MainInv(s) && AttemptsInv(s.attempts) && AllRetired(s) && NotReused(s.attempts)
    ensures NotReused(Apply(s, e).attempts)
  {
    var t := Apply(s, e);
    forall i, j | 0 <= i < j < |t.attempts| && t.attempts[i].broken
      ensures t.attempts[j].conn != t.attempts[i].conn
    {
      if j == |s.attempts| {
        OpenAvoidsRetired(s, e.dial, s.attempts[i]);
      } else if e.Of? && e.i == i {
        BrokenBefore(s, i, e.act);
      }
    }
  }

  lemma StepIsGood(s: State, e: Event)
    requires Good(s) && Enabled(s, e)
    ensures Good(Apply(s, e))
  {
    AttemptsStep(s, e);
    MainStep(s, e);
    BodyStep(s, e);
    PoolStep(s, e);
    RetiredStep(s, e);
    NotReusedStep(s, e);
  }

  lemma {:induction false} RunIsGood(s: State, es: seq<Event>, t: State)
    requires Good(s) && Run(s, es, t)
    ensures Good(t)
    decreases |es|
  {
    if es != [] {
      StepIsGood(s, es[0]);
      RunIsGood(Apply(s, es[0]), es[1..], t);
    }
  }

  /** What every interleaving of any number of round trips keeps. */
  lemma ReachableIsGood(maxConns: nat, es: seq<Event>, t: State)
    requires Run(Start(maxConns), es, t)
    ensures Good(t)
  {
    RunIsGood(Start(maxConns), es, t);
  }

  // ------------------------------------------------------- stale timers

  /** Once an attempt has returned, nothing its timer can still do touches the pool. */
  lemma StaleTimerIsHarmless(maxConns: nat, es: seq<Event>, t: State, i: nat, act: Action)
    requires Run(Start(maxConns), es, t) && i < |t.attempts| && t.attempts[i].returned
    requires Enabled(t, Of(i, act))
    ensures act.TimerWakes? && Apply(t, Of(i, act)).pool == t.pool
  {
    ReachableIsGood(maxConns, es, t);
    assert AttemptInv(t.attempts[i]);
  }

  /** The pool is only ever closed by the trip under way, by `Open` making room, or
      by the final shutdown. */
  lemma OnlyCurrentTripCloses(maxConns: nat, es: seq<Event>, t: State, e: Event)
    requires Run(Start(maxConns), es, t) && Enabled(t, e)
    ensures Apply(t, e).pool.conns != t.pool.conns ==>
              e.Open? || e.Shutdown? || (e.Of? && t.main.Waiting? && t.main.i == e.i)
  {
    ReachableIsGood(maxConns, es, t);
    if e.Of? { assert AttemptInv(t.attempts[e.i]); }
  }

  /** In one trip the timeout closes the pool at most once, never after cancel has
      won, and an attempt that has returned was decided one way or the other. */
  lemma TimeoutOrCancel(maxConns: nat, es: seq<Event>, t: State, i: nat)
    requires Run(Start(maxConns), es, t) && i < |t.attempts|
    ensures var a := t.attempts[i];
            && a.timeoutCloses == CountOf(es, Of(i, TimerClose)) <= 1
            && (a.cancelWon ==> a.timeoutCloses == 0)
            && (a.returned ==> (a.cancelWon <==> a.timeoutCloses == 0))
  {
    ReachableIsGood(maxConns, es, t);
    TimeoutsAreCounted(Start(maxConns), es, t, i);
    assert AttemptInv(t.attempts[i]);
  }

  lemma ThreeSteps(s: State, e1: Event, e2: Event, e3: Event)
    requires Enabled(s, e1) && Enabled(Apply(s, e1), e2) && Enabled(Apply(Apply(s, e1), e2), e3)
    ensures Run(s, [e1, e2, e3], Apply(Apply(Apply(s, e1), e2), e3))
  {
    var u := Apply(Apply(Apply(s, e1), e2), e3);
    assert Run(u, [], u);
    assert [e1, e2, e3][1..] == [e2, e3] && [e2, e3][1..] == [e3] && [e3][1..] == [];
  }

  /** The timer's way through the Once. */
  lemma TimerSteps(t: State, i: nat)
    requires Enabled(t, Of(i, WriteOk)) && AttemptInv(t.attempts[i]) && t.attempts[i].once.Fresh?
    ensures var t1 := Apply(t, Of(i, WriteOk));
            && Enabled(t1, Of(i, TimerWakes))
            && var t2 := Apply(t1, Of(i, TimerWakes));
               && Enabled(t2, Of(i, TimerClose)) && t2.pool == t.pool
               && var a := Apply(t2, Of(i, TimerClose)).attempts[i];
                  a.timeoutCloses == 1 && !a.cancelWon && a.broken && a.conn == t.attempts[i].conn
  {
  }

  /** After every successful write the timeout can run, unless cancel has come first,
      and running it empties the pool and closes the connection. */
  lemma TimeoutRuns(maxConns: nat, es: seq<Event>, t: State, i: nat) returns (u: State)
    requires Run(Start(maxConns), es, t) && Enabled(t, Of(i, WriteOk)) && t.attempts[i].once.Fresh?
    ensures Run(t, [Of(i, WriteOk), Of(i, TimerWakes), Of(i, TimerClose)], u)
    ensures u.pool.conns == map[] && u.pool.conn.None? && t.attempts[i].conn in u.pool.closed
    ensures i < |u.attempts| && u.attempts[i].timeoutCloses == 1 && !u.attempts[i].cancelWon
  {
    ReachableIsGood(maxConns, es, t);
    assert AttemptInv(t.attempts[i]);
    var e1, e2, e3 := Of(i, WriteOk), Of(i, TimerWakes), Of(i, TimerClose);
    TimerSteps(t, i);
    u := Apply(Apply(Apply(t, e1), e2), e3);
    ThreeSteps(t, e1, e2, e3);
    RunIsGood(t, [e1, e2, e3], u);
    assert Retired(u.pool, u.attempts[i]);
  }

  /** A timer sleeps in every attempt that has written and not been closed for a failure. */
  lemma TimerStarted(maxConns: nat, es: seq<Event>, t: State, i: nat)
    requires Run(Start(maxConns), es, t) && i < |t.attempts|
    requires t.attempts[i].writer.WriterDone? && !t.attempts[i].broken && t.attempts[i].once.Fresh?
    ensures Enabled(t, Of(i, TimerWakes))
  {
    ReachableIsGood(maxConns, es, t);
    assert AttemptInv(t.attempts[i]);
  }

  function CountOf(es: seq<Event>, e: Event): nat {
    if es == [] then 0 else (if es[0] == e then 1 else 0) + CountOf(es[1..], e)
  }

  lemma {:induction false} TimeoutsAreCounted(s: State, es: seq<Event>, t: State, i: nat)
    requires Run(s, es, t) && i < |t.attempts|
    ensures t.attempts[i].timeoutCloses == CountOf(es, Of(i, TimerClose)) + if i < |s.attempts| then s.attempts[i].timeoutCloses else 0
    decreases |es|
  {
    if es != [] {
      TimeoutsAreCounted(Apply(s, es[0]), es[1..], t, i);
    }
  }

  predicate Decided(a: Attempt) {
    a.returned || a.cancelWon
  }

  lemma DecidedStep(s: State, e: Event, i: nat)
    requires Enabled(s, e) && i < |s.attempts| && AttemptInv(s.attempts[i]) && Decided(s.attempts[i])
    ensures var t := Apply(s, e);
            i < |t.attempts| && Decided(t.attempts[i]) && t.attempts[i].timeoutCloses == s.attempts[i].timeoutCloses
  {
  }

  lemma {:induction false} DecisionStands(s: State, es: seq<Event>, t: State, i: nat)
    requires AttemptsInv(s.attempts) && Run(s, es, t) && i < |s.attempts| && Decided(s.attempts[i])
    ensures i < |t.attempts| && t.attempts[i].timeoutCloses == s.attempts[i].timeoutCloses
    decreases |es|
  {
    if es != [] {
      AttemptsStep(s, es[0]);
      DecidedStep(s, es[0], i);
      DecisionStands(Apply(s, es[0]), es[1..], t, i);
    }
  }

  /** Attempts are never forgotten, and what was decided stays decided. */
  lemma DecidedForGood(maxConns: nat, es: seq<Event>, s: State, more: seq<Event>, t: State, i: nat)
    requires Run(Start(maxConns), es, s) && i < |s.attempts| && Decided(s.attempts[i]) && Run(s, more, t)
    ensures i < |t.attempts| && t.attempts[i].timeoutCloses == s.attempts[i].timeoutCloses
  {
    ReachableIsGood(maxConns, es, s);
    DecisionStands(s, more, t, i);
  }

  /** The wait for the Once cannot deadlock: whenever the loop waits for an attempt,
      one of that attempt's goroutines or the loop itself can go on. */
  lemma NeverStuck(maxConns: nat, es: seq<Event>, t: State) returns (act: Action)
    requires Run(Start(maxConns), es, t) && t.main.Waiting?
    ensures Enabled(t, Of(t.main.i, act)) && !OnBody(act)
  {
    ReachableIsGood(maxConns, es, t);
    act := GoOn(t);
  }

  /** Otherwise the loop can shut down, go on with any request, or open. */
  lemma LoopGoesOn(s: State, d: Dest, dial: Option<ConnId>)
    requires ':' !in d.scheme && (dial.Some? ==> dial.value !in s.pool.dialled)
    ensures s.main.Idle? ==> Enabled(s, Shutdown) && Enabled(s, Begin(d, None, 0))
    ensures s.main.Opening? ==> Enabled(s, Open(dial))
  {
  }

  lemma GoOn(s: State) returns (act: Action)
    requires Good(s) && s.main.Waiting?
    ensures Enabled(s, Of(s.main.i, act)) && !OnBody(act)
  {
    var a := s.attempts[s.main.i];
    assert AttemptInv(a);
    act := if a.writer.Writing? then WriteFail
           else if a.writer.WriteFailed? then WriterClose
           else if a.listener.Listening? then ListenReturn(false)
           else if a.once.Running? then TimerClose
           else if a.listener.Returned? then Cancel
           else if a.listener.Cancelled? then ListenerClose
           else Join;
  }

  // ------------------------------------------------------- trips end

  predicate OnBody(act: Action) {
    act.BodyRead? || act.BodyClose?
  }

  /** How many steps the goroutines of an attempt and its join still have before them,
      at most, not counting those on the body. */
  function Left(a: Attempt): nat {
    (match a.writer case Writing => 2 case WriteFailed => 1 case WriterDone => 0)
    + (match a.listener case Listening => 3 case Returned(_) => 2 case Cancelled(_) => 1 case ListenerDone => 0)
    + (match a.timer case Unstarted => 2 case Asleep => 2 case Firing => 1 case Gone => 0)
    + (if a.returned then 0 else 1)
  }

  predicate StepOf(e: Event, i: nat) {
    e.Of? && e.i == i && !OnBody(e.act)
  }

  /** The steps of the `i`-th attempt in a run. */
  function Steps(es: seq<Event>, i: nat): nat {
    if es == [] then 0 else (if StepOf(es[0], i) then 1 else 0) + Steps(es[1..], i)
  }

  lemma StepUsesUp(s: State, e: Event, i: nat)
    requires Enabled(s, e) && MainInv(s) && i < |s.attempts| && AttemptInv(s.attempts[i])
    ensures var t := Apply(s, e);
            i < |t.attempts| && Left(t.attempts[i]) + (if StepOf(e, i) then 1 else 0) <= Left(s.attempts[i])
  {
  }

  lemma {:induction false} RunUsesUp(s: State, es: seq<Event>, t: State, i: nat)
    requires Good(s) && Run(s, es, t) && i < |s.attempts|
    ensures i < |t.attempts| && Left(t.attempts[i]) + Steps(es, i) <= Left(s.attempts[i])
    decreases |es|
  {
    if es != [] {
      StepIsGood(s, es[0]);
      StepUsesUp(s, es[0], i);
      RunUsesUp(Apply(s, es[0]), es[1..], t, i);
    }
  }

  /** However a run goes on, the loop waits for at most seven steps of its attempt, and
      it takes no more than them to end the wait. So every trip ends, unless its body
      is read for ever or a goroutine that can go on does not. */
  lemma TripEnds(maxConns: nat, es: seq<Event>, s: State, more: seq<Event>, t: State)
    requires Run(Start(maxConns), es, s) && s.main.Waiting? && Run(s, more, t)
    ensures Steps(more, s.main.i) <= 8
    ensures t.main.Waiting? && t.main.i == s.main.i ==> Steps(more, s.main.i) <= 7
  {
    ReachableIsGood(maxConns, es, s);
    RunUsesUp(s, more, t, s.main.i);
    RunIsGood(s, more, t);
  }

  /** From wherever the loop waits, steps of its attempt alone lead out of the wait. */
  lemma WayOut(maxConns: nat, es: seq<Event>, s: State) returns (more: seq<Event>, t: State)
    requires Run(Start(maxConns), es, s) && s.main.Waiting?
    ensures Run(s, more, t) && t.main.Idle? && |more| <= 8
    ensures forall k :: 0 <= k < |more| ==> StepOf(more[k], s.main.i)
  {
    ReachableIsGood(maxConns, es, s);
    more, t := Finish(s);
  }

  lemma {:induction false} Finish(s: State) returns (more: seq<Event>, t: State)
    requires Good(s) && s.main.Waiting?
    ensures Run(s, more, t) && t.main.Idle? && |more| <= Left(s.attempts[s.main.i])
    ensures forall k :: 0 <= k < |more| ==> StepOf(more[k], s.main.i)
    decreases Left(s.attempts[s.main.i])
  {
    var act := GoOn(s);
    var e := Of(s.main.i, act);
    StepIsGood(s, e);
    StepUsesUp(s, e, s.main.i);
    t := Apply(s, e);
    more := [];
    if !act.Join? { more, t := Finish(t); }
    more := [e] + more;
  }

  // -------------------------------------------------------------- the pool

  /** At most MaxConns + 1 entries, nothing dialled is lost, keys tell the truth;
      and once the loop has shut the pool down every connection is closed for good. */
  lemma PoolInvariant(maxConns: nat, es: seq<Event>, t: State)
    requires Run(Start(maxConns), es, t)
    ensures Inv(t.pool, maxConns)
    ensures Shutdown in es ==> AllClosed(t.pool) && t.main.Stopped?
  {
    ReachableIsGood(maxConns, es, t);
    MaxConnsFixed(Start(maxConns), es, t);
    if Shutdown in es { StoppedForGood(Start(maxConns), es, t); }
  }

  lemma {:induction false} StoppedForGood(s: State, es: seq<Event>, t: State)
    requires Run(s, es, t) && (s.main.Stopped? || Shutdown in es)
    ensures t.main.Stopped?
    decreases |es|
  {
    if es != [] { StoppedForGood(Apply(s, es[0]), es[1..], t); }
  }

  lemma {:induction false} MaxConnsFixed(s: State, es: seq<Event>, t: State)
    requires Run(s, es, t)
    ensures t.maxConns == s.maxConns
    decreases |es|
  {
    if es != [] { MaxConnsFixed(Apply(s, es[0]), es[1..], t); }
  }

  /** Whenever `Open` succeeds an attempt begins, in which everything is still to be
      done, and its connection was dialled for the destination of its request. */
  lemma RightDestination(maxConns: nat, es: seq<Event>, t: State, dial: Option<ConnId>)
    requires Run(Start(maxConns), es, t) && Enabled(t, Open(dial))
    ensures var u, j := Apply(t, Open(dial)), |t.attempts|;
            u.pool.conn.Some? ==>
              && |u.attempts| == j + 1 && u.main.Waiting? && u.main.i == j && u.body == t.body
              && u.attempts[j].conn == u.pool.conn.value
              && u.attempts[j].conn in u.pool.dialled && u.pool.dialled[u.attempts[j].conn] == t.main.d
              && Enabled(u, Of(j, WriteOk)) && Enabled(u, Of(j, WriteFail))
              && forall ok :: Enabled(u, Of(j, ListenReturn(ok)))
  {
    ReachableIsGood(maxConns, es, t);
    OpenedForRequest(t.pool, t.maxConns, t.main.d, dial);
  }

  lemma {:induction false} AttemptsPersist(s: State, es: seq<Event>, t: State, i: nat)
    requires Run(s, es, t) && i < |s.attempts|
    ensures i < |t.attempts| && t.attempts[i].conn == s.attempts[i].conn
    ensures s.attempts[i].broken ==> t.attempts[i].broken
    decreases |es|
  {
    if es != [] {
      AttemptStays(s, es[0], i);
      AttemptsPersist(Apply(s, es[0]), es[1..], t, i);
    }
  }

  lemma AttemptStays(s: State, e: Event, i: nat)
    requires Enabled(s, e) && i < |s.attempts|
    ensures var t := Apply(s, e);
            && i < |t.attempts| && t.attempts[i].conn == s.attempts[i].conn
            && (s.attempts[i].broken ==> t.attempts[i].broken)
  {
  }

  /** Writing or listening has failed in the `i`-th attempt, or its timeout has run. */
  predicate Fails(es: seq<Event>, i: nat) {
    exists k :: 0 <= k < |es| && es[k] in [Of(i, WriteFail), Of(i, ListenReturn(false)), Of(i, TimerClose)]
  }

  predicate Noted(s: State, i: nat) {
    i < |s.attempts| && (s.attempts[i].failed || s.attempts[i].timeoutCloses > 0)
  }

  lemma NotedStep(s: State, e: Event, i: nat)
    requires Enabled(s, e)
    requires Noted(s, i) || e in [Of(i, WriteFail), Of(i, ListenReturn(false)), Of(i, TimerClose)]
    ensures Noted(Apply(s, e), i)
  {
  }

  lemma {:induction false} FailuresAreNoted(s: State, es: seq<Event>, t: State, i: nat)
    requires Run(s, es, t) && (Noted(s, i) || Fails(es, i))
    ensures Noted(t, i)
    decreases |es|
  {
    if es != [] {
      if Noted(s, i) || es[0] in [Of(i, WriteFail), Of(i, ListenReturn(false)), Of(i, TimerClose)] {
        NotedStep(s, es[0], i);
      } else {
        var k :| 0 <= k < |es| && es[k] in [Of(i, WriteFail), Of(i, ListenReturn(false)), Of(i, TimerClose)];
        assert es[1..][k - 1] == es[k];
      }
      FailuresAreNoted(Apply(s, es[0]), es[1..], t, i);
    }
  }

  /** A connection on which writing or listening failed, or whose attempt timed out, is
      closed when the attempt returns, and however the run goes on from there it stays
      closed and out of the pool, and no later attempt is given it. */
  lemma FailedConnectionIsRetired(maxConns: nat, es: seq<Event>, s: State, more: seq<Event>, t: State, i: nat)
    requires Run(Start(maxConns), es, s) && i < |s.attempts| && s.attempts[i].returned && Run(s, more, t)
    requires Fails(es, i)
    ensures s.attempts[i].conn in t.pool.closed && s.attempts[i].conn !in t.pool.conns.Values
    ensures forall j :: i < j < |t.attempts| ==> t.attempts[j].conn != s.attempts[i].conn
  {
    ReachableIsGood(maxConns, es, s);
    FailuresAreNoted(Start(maxConns), es, s, i);
    assert AttemptInv(s.attempts[i]);
    AttemptsPersist(s, more, t, i);
    RunIsGood(s, more, t);
    assert Retired(t.pool, t.attempts[i]);
  }

  // ------------------------------------------------------ without failures

  /** A step that neither is a failure of the trip under way nor ends it. */
  predicate Harmless(e: Event) {
    match e
    case Begin(_, _, _) => false
    case Open(_) => false
    case Shutdown => false
    case RemoteClose(_) => true
    case Of(_, act) => !act.WriteFail? && act != ListenReturn(false) && !act.TimerClose? && !act.Join?
  }

  /** No goroutine of the attempt is on its way to closing the pool for an error. */
  predicate Unharmed(a: Attempt) {
    !a.writer.WriteFailed? && a.listener != Returned(false) && a.listener != Cancelled(false)
  }

  lemma HarmlessStep(s: State, e: Event)
    requires Good(s) && Enabled(s, e) && Harmless(e) && s.main.Waiting? && Unharmed(s.attempts[s.main.i])
    ensures var t := Apply(s, e);
            && t.main == s.main && Unharmed(t.attempts[t.main.i]) && |t.attempts| == |s.attempts|
            && t.pool == s.pool.(closed := t.pool.closed)
            && (!e.RemoteClose? ==> t.pool == s.pool)
  {
    if e.Of? { assert AttemptInv(s.attempts[e.i]); }
  }

  lemma {:induction false} HarmlessRun(s: State, es: seq<Event>, t: State)
    requires Good(s) && Run(s, es, t) && s.main.Waiting? && Unharmed(s.attempts[s.main.i])
    requires forall k :: 0 <= k < |es| ==> Harmless(es[k])
    ensures t.main == s.main && t.pool == s.pool.(closed := t.pool.closed)
    ensures (forall k :: 0 <= k < |es| ==> !es[k].RemoteClose?) ==> t.pool == s.pool
    decreases |es|
  {
    if es != [] {
      StepIsGood(s, es[0]);
      HarmlessStep(s, es[0]);
      HarmlessRun(Apply(s, es[0]), es[1..], t);
    }
  }

  /** A trip in which nothing fails and no timeout runs leaves the pool as its `Open`
      left it, however its goroutines and the timers of earlier trips interleave. */
  lemma SuccessKeepsPool(maxConns: nat, es: seq<Event>, s: State, dial: Option<ConnId>, trip: seq<Event>, t: State)
    requires Run(Start(maxConns), es, s) && Enabled(s, Open(dial)) && Apply(s, Open(dial)).main.Waiting?
    requires Run(Apply(s, Open(dial)), trip, t) && forall k :: 0 <= k < |trip| ==> Harmless(trip[k])
    ensures Good(t) && t.main == Apply(s, Open(dial)).main
    ensures var p := Apply(s, Open(dial)).pool; t.pool == p.(closed := t.pool.closed)
    ensures (forall k :: 0 <= k < |trip| ==> !trip[k].RemoteClose?) ==> t.pool == Apply(s, Open(dial)).pool
    ensures t.pool.conn.Some? && Pooled(t.pool, s.main.d, t.pool.conn.value)
  {
    ReachableIsGood(maxConns, es, s);
    StepIsGood(s, Open(dial));
    HarmlessRun(Apply(s, Open(dial)), trip, t);
    RunIsGood(Apply(s, Open(dial)), trip, t);
    OpenedForRequest(s.pool, s.maxConns, s.main.d, dial);
  }

  /** The next trip of the loop, to `d`, up to its first `Open`. */
  function NextTrip(s: State, d: Dest, data: Option<Bytes>, peek: nat): State
    requires s.main.Waiting? && Enabled(s, Of(s.main.i, Join))
    requires ':' !in d.scheme && peek <= PEEK && (data.Some? ==> peek <= |data.value|)
  {
    Apply(Apply(s, Of(s.main.i, Join)), Begin(d, data, peek))
  }

  /** After such a trip the next request to the same destination is given the same
      connection, without dialling. */
  lemma SuccessIsReused(maxConns: nat, es: seq<Event>, s: State, dial: Option<ConnId>, trip: seq<Event>, t: State,
                        data: Option<Bytes>, peek: nat, again: Option<ConnId>)
    requires Run(Start(maxConns), es, s) && Enabled(s, Open(dial)) && Apply(s, Open(dial)).main.Waiting?
    requires Run(Apply(s, Open(dial)), trip, t) && forall k :: 0 <= k < |trip| ==> Harmless(trip[k])
    requires t.main.Waiting? && Enabled(t, Of(t.main.i, Join))
    requires peek <= PEEK && (data.Some? ==> peek <= |data.value|) && ':' !in s.main.d.scheme
    requires Enabled(NextTrip(t, s.main.d, data, peek), Open(again))
    ensures var u := Apply(NextTrip(t, s.main.d, data, peek), Open(again));
            && u.main.Waiting? && u.pool == t.pool && u.main.i == |u.attempts| - 1
            && Some(u.attempts[u.main.i].conn) == Apply(s, Open(dial)).pool.conn
  {
    SuccessKeepsPool(maxConns, es, s, dial, trip, t);
    OpenServes(t.pool, t.maxConns, s.main.d, again);
  }

  /** In every run `Open` serves the request as the pool does by itself. */
  lemma OpenServesTrip(maxConns: nat, es: seq<Event>, t: State, dial: Option<ConnId>)
    requires Run(Start(maxConns), es, t) && Enabled(t, Open(dial))
    ensures Serves(t.pool, maxConns, t.main.d, Apply(t, Open(dial)).pool)
  {
    ReachableIsGood(maxConns, es, t);
    MaxConnsFixed(Start(maxConns), es, t);
    OpenServes(t.pool, maxConns, t.main.d, dial);
  }

  /** What the peer has closed, and whatever else is closed, stays closed. */
  lemma {:induction false} ClosedForGood(s: State, es: seq<Event>, t: State, id: ConnId)
    requires Run(s, es, t) && (id in s.pool.closed || RemoteClose(id) in es)
    ensures id in t.pool.closed
    decreases |es|
  {
    if es != [] { ClosedForGood(Apply(s, es[0]), es[1..], t, id); }
  }

  /** Every failing `Open` but the second of its trip is followed by another one. */
  lemma RetriedOnce(maxConns: nat, es: seq<Event>, t: State, dial: Option<ConnId>)
    requires Run(Start(maxConns), es, t) && Enabled(t, Open(dial)) && Apply(t, Open(dial)).pool.conn.None?
    ensures Apply(t, Open(dial)).attempts == t.attempts && Apply(t, Open(dial)).body == t.body
    ensures Apply(t, Open(dial)).main == if t.main.opens == 0 then Opening(t.main.d, 1) else Idle
  {
    ReachableIsGood(maxConns, es, t);
  }

  // ------------------------------------------------------------ safe retry

  /** An attempt is only ever first for a body nobody has read from or closed, with
      all its bytes still to be read, and at most twice in a trip. */
  lemma FreshBodyForEveryAttempt(maxConns: nat, es: seq<Event>, t: State, dial: Option<ConnId>)
    requires Run(Start(maxConns), es, t) && Enabled(t, Open(dial))
    ensures t.main.opens <= 1
    ensures t.body.Wrapped? ==> !t.body.used && t.body.seen == [] && t.body.peeked + t.body.rest == t.body.original
  {
    ReachableIsGood(maxConns, es, t);
    if t.body.Wrapped? { assert [] + t.body.peeked + t.body.rest == t.body.peeked + t.body.rest; }
  }

  /** Whoever reads the body reads the original bytes in order, from the first one
      on, and all of them once nothing is left. */
  lemma BodySeenInFull(maxConns: nat, es: seq<Event>, t: State)
    requires Run(Start(maxConns), es, t) && t.body.Wrapped?
    ensures t.body.seen <= t.body.original
    ensures t.body.peeked == [] && t.body.rest == [] ==> t.body.seen == t.body.original
  {
    ReachableIsGood(maxConns, es, t);
    var b := t.body;
    assert b.seen + b.peeked + b.rest == b.seen + (b.peeked + b.rest);
    if b.peeked == [] && b.rest == [] { assert b.seen + b.peeked + b.rest == b.seen; }
  }

  /** A trip begins with nothing of its body read. */
  lemma TripHasBody(s: State, d: Dest, data: Bytes, peek: nat)
    requires Enabled(s, Begin(d, Some(data), peek))
    ensures var t := Apply(s, Begin(d, Some(data), peek));
            t.main == Opening(d, 0) && t.body.Wrapped? && t.body.original == data && t.body.seen == [] && !t.body.used
  {
  }

  predicate SameTrip(es: seq<Event>) {
    forall k :: 0 <= k < |es| ==> !es[k].Begin?
  }

  predicate Touches(es: seq<Event>) {
    exists k :: 0 <= k < |es| && es[k].Of? && OnBody(es[k].act)
  }

  /** The body of a trip counts as used exactly if it has been read from or closed. */
  lemma {:induction false} UsedIfTouched(s: State, trip: seq<Event>, t: State)
    requires Run(s, trip, t) && SameTrip(trip) && s.body.Wrapped?
    ensures t.body.Wrapped? && (t.body.used <==> s.body.used || Touches(trip))
    decreases |trip|
  {
    if trip != [] {
      assert Touches(trip) <==> (trip[0].Of? && OnBody(trip[0].act)) || Touches(trip[1..]) by {
        if k :| 0 < k < |trip| && trip[k].Of? && OnBody(trip[k].act) { assert trip[1..][k - 1] == trip[k]; }
      }
      UsedIfTouched(Apply(s, trip[0]), trip[1..], t);
    }
  }

  /** Every read delivers the next bytes of the original, and as long as there are any
      the writer can read some. */
  lemma ReadsGoOn(maxConns: nat, es: seq<Event>, t: State, i: nat, n: nat)
    requires Run(Start(maxConns), es, t) && i < |t.attempts| && t.attempts[i].writer.Writing? && t.body.Wrapped?
    ensures Enabled(t, Of(i, BodyRead(n))) ==>
              var u := Apply(t, Of(i, BodyRead(n)));
              && u.body.Wrapped? && u.body.used && u.body.original == t.body.original
              && |t.body.seen| + n <= |t.body.original| && u.body.seen == t.body.original[..|t.body.seen| + n]
    ensures t.body.seen != t.body.original ==> Enabled(t, Of(i, BodyRead(1)))
    ensures Enabled(t, Of(i, BodyClose))
  {
    ReachableIsGood(maxConns, es, t);
    BodySeenInFull(maxConns, es, t);
    if Enabled(t, Of(i, BodyRead(n))) {
      SeenAfterRead(t.body, n);
    }
  }

  lemma SeenAfterRead(b: RequestBody, n: nat)
    requires b.Wrapped? && n <= |NextPart(b)| && b.seen + b.peeked + b.rest == b.original
    ensures |b.seen| + n <= |b.original| && ReadBody(b, n).seen == b.original[..|b.seen| + n]
  {
    ReadConserves(b, n);
    var c := ReadBody(b, n);
    assert c.seen + c.peeked + c.rest == c.seen + (c.peeked + c.rest);
  }

  function Opens(es: seq<Event>): nat {
    if es == [] then 0 else (if es[0].Open? then 1 else 0) + Opens(es[1..])
  }

  /** How many times the trip under way may still try to open a connection. */
  function OpensLeft(m: Main): nat {
    if !m.Opening? then 0 else if m.opens == 0 then 2 else 1
  }

  lemma {:induction false} TripOpens(s: State, es: seq<Event>, t: State)
    requires Run(s, es, t) && SameTrip(es)
    ensures Opens(es) <= OpensLeft(s.main)
    ensures |t.attempts| <= |s.attempts| + if s.main.Opening? then 1 else 0
    decreases |es|
  {
    if es != [] {
      TripOpens(Apply(s, es[0]), es[1..], t);
    }
  }

  /** Until the next request a trip makes at most two attempts, and at most one of them
      gets a connection: a failure of writing, listening or the timer is never retried. */
  lemma OneConnectionPerTrip(s: State, d: Dest, data: Option<Bytes>, peek: nat, trip: seq<Event>, t: State)
    requires Enabled(s, Begin(d, data, peek)) && Run(Apply(s, Begin(d, data, peek)), trip, t) && SameTrip(trip)
    ensures Opens(trip) <= 2 && |t.attempts| <= |s.attempts| + 1
  {
    TripOpens(Apply(s, Begin(d, data, peek)), trip, t);
  }
}
