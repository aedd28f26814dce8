/** The shared rate limiter: one controller, any number of concurrent readers.
    Times are nanoseconds. */
module Throttle {
  import opened Wrappers

  /** Nanoseconds that `bytes` take at `rate` bits a second, rounded down. */
  function Charge(bytes: nat, rate: nat): nat
    requires rate > 0
  {
    bytes * 8_000_000_000 / rate
  }

  function Pos(d: int): nat {
    if d > 0 then d else 0
  }

  /** A charge is the time in which the rate allows for the bytes, cut off to whole
      nanoseconds. */
  lemma ChargeExact(bytes: nat, rate: nat)
    requires rate > 0
    ensures rate * Charge(bytes, rate) <= bytes * 8_000_000_000 < rate * (Charge(bytes, rate) + 1)
  {
  }

  // -------------------------------------------------------- one controller

  /** `late` is by how much sleeps have overrun in all. */
  class Clock {
    var now: int
    ghost var late: nat

    /** time.Sleep: returns at once when `d` is not positive, never early otherwise. */
    method Sleep(d: int)
      modifies this
      ensures late >= old(late) && now == old(now) + (late - old(late)) + Pos(d)
    {
      var more: nat :| more >= 0;
      now := now + more + if d > 0 then d else 0;
      late := late + more;
    }
  }

  class ThrottleController {
    var rate: nat
    var allowNextReadAfter: int

    constructor (rate: nat)
      ensures this.rate == rate && allowNextReadAfter == 0
    {
      this.rate, this.allowNextReadAfter := rate, 0;
    }

    method SetRate(rate: nat)
      modifies this`rate
      ensures this.rate == rate
    {
      this.rate := rate;
    }

    /** The section under readMutex. `meanwhile` is a SetRate by another goroutine
        during the sleep; the charge is made at the rate read before it. A rate of
        zero leaves the next pause to the conversion of an infinite or undefined float. */
    method ConsumeBytes(bytes: nat, clock: Clock, meanwhile: Option<nat>)
      modifies this, clock
      ensures clock.late >= old(clock.late)
      ensures clock.now == old(clock.now) + (clock.late - old(clock.late)) + Pos(old(allowNextReadAfter))
      ensures old(rate) > 0 ==>
        && allowNextReadAfter == Charge(bytes, old(rate))
        && old(rate) * allowNextReadAfter <= bytes * 8_000_000_000 < old(rate) * (allowNextReadAfter + 1)
      ensures rate == if meanwhile.Some? then meanwhile.value else old(rate)
    {
      var r, pause := rate, allowNextReadAfter;
      clock.Sleep(pause);
      if meanwhile.Some? {
        SetRate(meanwhile.value);
      }
      if r > 0 {
        allowNextReadAfter := Charge(bytes, r);
        ChargeExact(bytes, r);
      } else {
        allowNextReadAfter := *;
      }
    }
  }

  // ------------------------------------------------------- concurrent runs

  /** A completed ConsumeBytes: its size, the rate it was charged at, its end. */
  datatype Call = Call(bytes: nat, rate: nat, done: int)

  /** Where one reader stands. */
  datatype Phase =
    | Reading
    | WantsLock(bytes: nat)
    | HasLock(bytes: nat)
    | Sleeping(bytes: nat, rate: nat, pause: int, since: int)
    | Slept(bytes: nat, rate: nat)

  datatype State = State(now: int, rate: nat, allow: int, holder: Option<nat>, readers: seq<Phase>, calls: seq<Call>)

  datatype Event =
    | Tick(dt: nat)
    | SetRate(rate: nat)
    | DataRead(i: nat, bytes: nat)
    | Lock(i: nat)
    | Capture(i: nat)
    | Wake(i: nat)
    | Store(i: nat, unspecified: int)

  predicate Enabled(s: State, e: Event) {
    match e
    case Tick(_) => true
    case SetRate(_) => true
    case DataRead(i, _) => i < |s.readers| && s.readers[i].Reading?
    case Lock(i) => i < |s.readers| && s.readers[i].WantsLock? && s.holder.None?
    case Capture(i) => i < |s.readers| && s.readers[i].HasLock?
    case Wake(i) => i < |s.readers| && s.readers[i].Sleeping? && s.now >= s.readers[i].since + s.readers[i].pause
    case Store(i, _) => i < |s.readers| && s.readers[i].Slept?
  }

  function Apply(s: State, e: Event): State
    requires Enabled(s, e)
  {
    match e
    case Tick(dt) => s.(now := s.now + dt)
    case SetRate(r) => s.(rate := r)
    case DataRead(i, b) => s.(readers := s.readers[i := WantsLock(b)])
    case Lock(i) => s.(holder := Some(i), readers := s.readers[i := HasLock(s.readers[i].bytes)])
    case Capture(i) => s.(readers := s.readers[i := Sleeping(s.readers[i].bytes, s.rate, s.allow, s.now)])
    case Wake(i) => s.(readers := s.readers[i := Slept(s.readers[i].bytes, s.readers[i].rate)])
    case Store(i, x) =>
      var p := s.readers[i];
      s.(allow := if p.rate > 0 then Charge(p.bytes, p.rate) else x,
         holder := None,
         readers := s.readers[i := Reading],
         calls := s.calls + [Call(p.bytes, p.rate, s.now)])
  }

  /** Some interleaving of events leads from `s` to `t`. */
  ghost predicate Run(s: State, es: seq<Event>, t: State)
    decreases |es|
  {
    if es == [] then s == t else Enabled(s, es[0]) && Run(Apply(s, es[0]), es[1..], t)
  }

  predicate Initial(s: State) {
    && s.allow == 0 && s.holder.None? && s.calls == []
    && forall i :: 0 <= i < |s.readers| ==> s.readers[i].Reading?
  }

  /** What the calls are charged in all; calls at rate zero count nothing. */
  function Total(calls: seq<Call>): nat {
    if calls == [] then 0
    else
      var c := calls[|calls| - 1];
      Total(calls[..|calls| - 1]) + if c.rate > 0 then Charge(c.bytes, c.rate) else 0
  }

  predicate OnTime(start: int, calls: seq<Call>) {
    forall k :: 0 <= k < |calls| ==> calls[k].done - start >= Total(calls[..k])
  }

  predicate Critical(p: Phase) {
    p.HasLock? || p.Sleeping? || p.Slept?
  }

  /** When the last call ended. */
  function Last(start: int, s: State): int {
    if s.calls == [] then start else s.calls[|s.calls| - 1].done
  }

  /** What holds of the reader inside the section under readMutex. */
  predicate PhaseInv(start: int, s: State, p: Phase) {
    match p
    case Sleeping(_, _, pause, since) => pause == s.allow && since >= Last(start, s)
    case Slept(_, _) => s.now >= Last(start, s) + Pos(s.allow)
    case _ => true
  }

  /** What holds of the reader at `i`. */
  predicate ReaderInv(start: int, s: State, i: nat)
    requires i < |s.readers|
  {
    (Critical(s.readers[i]) ==> s.holder == Some(i)) && PhaseInv(start, s, s.readers[i])
  }

  ghost predicate Inv(start: int, s: State) {
    && OnTime(start, s.calls)
    && s.now >= Last(start, s)
    && Last(start, s) + Pos(s.allow) >= start + Total(s.calls)
    && forall i :: 0 <= i < |s.readers| ==> ReaderInv(start, s, i)
  }

  lemma TotalSnoc(calls: seq<Call>, c: Call)
    ensures Total(calls + [c]) == Total(calls) + if c.rate > 0 then Charge(c.bytes, c.rate) else 0
  {
    assert (calls + [c])[..|calls|] == calls;
  }

  lemma OnTimeSnoc(start: int, calls: seq<Call>, c: Call)
    requires OnTime(start, calls) && c.done - start >= Total(calls)
    ensures OnTime(start, calls + [c])
  {
    var all := calls + [c];
    forall k | 0 <= k < |all|
      ensures all[k].done - start >= Total(all[..k])
    {
      if k < |calls| { assert all[..k] == calls[..k]; } else { assert all[..k] == calls; }
    }
  }

  lemma StoreKeepsReaders(start: int, s: State, e: Event, i: nat)
    requires Enabled(s, e) && e.Store? && i < |s.readers| && ReaderInv(start, s, i) && ReaderInv(start, s, e.i)
    ensures ReaderInv(start, Apply(s, e), i)
  {
  }

  lemma OtherKeepsReaders(start: int, s: State, e: Event, i: nat)
    requires Enabled(s, e) && !e.Store? && i < |s.readers| && ReaderInv(start, s, i)
    requires s.now >= Last(start, s)
    ensures ReaderInv(start, Apply(s, e), i)
  {
  }

  lemma StoreKeepsTime(start: int, s: State, e: Event)
    requires Enabled(s, e) && e.Store? && ReaderInv(start, s, e.i)
    requires OnTime(start, s.calls) && Last(start, s) + Pos(s.allow) >= start + Total(s.calls)
    ensures var t := Apply(s, e);
            && OnTime(start, t.calls) && t.now >= Last(start, t)
            && Last(start, t) + Pos(t.allow) >= start + Total(t.calls)
  {
    var p := s.readers[e.i];
    OneMoreCall(start, s.calls, Call(p.bytes, p.rate, s.now));
  }

  lemma OneMoreCall(start: int, calls: seq<Call>, c: Call)
    requires OnTime(start, calls) && c.done >= start + Total(calls)
    ensures var all := calls + [c];
            && OnTime(start, all) && all[|all| - 1] == c
            && Total(all) == Total(calls) + if c.rate > 0 then Charge(c.bytes, c.rate) else 0
  {
    OnTimeSnoc(start, calls, c);
    TotalSnoc(calls, c);
  }

  /** Every step keeps the invariant. */
  lemma StepKeepsInv(start: int, s: State, e: Event)
    requires Inv(start, s) && Enabled(s, e)
    ensures Inv(start, Apply(s, e))
  {
    if e.Store? { StoreKeepsTime(start, s, e); }
    forall i | 0 <= i < |s.readers|
      ensures ReaderInv(start, Apply(s, e), i)
    {
      if e.Store? { StoreKeepsReaders(start, s, e, i); } else { OtherKeepsReaders(start, s, e, i); }
    }
  }

  lemma {:induction false} RunKeepsInv(start: int, s: State, es: seq<Event>, t: State)
    requires Inv(start, s) && Run(s, es, t)
    ensures Inv(start, t)
    decreases |es|
  {
    if es != [] {
      StepKeepsInv(start, s, es[0]);
      RunKeepsInv(start, Apply(s, es[0]), es[1..], t);
    }
  }

  /** In every interleaving, when the k-th call ends at least the charges of all
      earlier calls have elapsed. */
  lemma PacedCalls(s: State, es: seq<Event>, t: State, k: nat)
    requires Initial(s) && Run(s, es, t) && k < |t.calls|
    ensures t.calls[k].done - s.now >= Total(t.calls[..k])
  {
    assert Inv(s.now, s);
    RunKeepsInv(s.now, s, es, t);
  }

  // ------------------------------------------------------------ rate bound

  function Delivered(calls: seq<Call>): nat {
    if calls == [] then 0 else Delivered(calls[..|calls| - 1]) + calls[|calls| - 1].bytes
  }

  /** At one rate the charges are the time in which it allows for the bytes, up to a
      nanosecond a call. */
  lemma {:induction false} TotalCovers(calls: seq<Call>, rate: nat)
    requires rate > 0 && forall k :: 0 <= k < |calls| ==> calls[k].rate == rate
    ensures rate * Total(calls) <= 8_000_000_000 * Delivered(calls) <= rate * Total(calls) + rate * |calls|
    decreases |calls|
  {
    if calls != [] {
      var n := |calls| - 1;
      var c := calls[n];
      TotalCovers(calls[..n], rate);
      ChargeExact(c.bytes, rate);
      Distribute(rate, Total(calls[..n]), Charge(c.bytes, rate));
      Distribute(rate, Charge(c.bytes, rate), 1);
      Distribute(rate, n, 1);
    }
  }

  lemma Distribute(r: int, a: int, b: int)
    ensures r * (a + b) == r * a + r * b
  {
  }

  /** At a constant rate the bytes delivered before the k-th call, in bits, stay
      within the rate times the elapsed time plus one nanosecond's worth a call. */
  lemma RateBound(s: State, es: seq<Event>, t: State, rate: nat, k: nat)
    requires Initial(s) && Run(s, es, t) && k < |t.calls|
    requires rate > 0 && forall j :: 0 <= j < |t.calls| ==> t.calls[j].rate == rate
    ensures 8_000_000_000 * Delivered(t.calls[..k]) <= rate * (t.calls[k].done - s.now) + rate * k
  {
    PacedCalls(s, es, t, k);
    TotalCovers(t.calls[..k], rate);
    MulMono(rate, Total(t.calls[..k]), t.calls[k].done - s.now);
  }

  lemma MulMono(r: nat, a: int, b: int)
    requires a <= b
    ensures r * a <= r * b
  {
  }

  /** Calls are charged at rates that were in force: without SetRate, at the initial one. */
  ghost predicate RateInv(rate: nat, s: State) {
    && s.rate == rate
    && (forall k :: 0 <= k < |s.calls| ==> s.calls[k].rate == rate)
    && forall i :: 0 <= i < |s.readers| ==>
         (s.readers[i].Sleeping? || s.readers[i].Slept? ==> s.readers[i].rate == rate)
  }

  lemma RateStays(rate: nat, s: State, e: Event)
    requires RateInv(rate, s) && Enabled(s, e) && (e.SetRate? ==> e.rate == rate)
    ensures RateInv(rate, Apply(s, e))
  {
  }

  lemma {:induction false} RateUnchanged(rate: nat, s: State, es: seq<Event>, t: State)
    requires Run(s, es, t) && RateInv(rate, s)
    requires forall k :: 0 <= k < |es| && es[k].SetRate? ==> es[k].rate == rate
    ensures RateInv(rate, t)
    decreases |es|
  {
    if es != [] {
      RateStays(rate, s, es[0]);
      RateUnchanged(rate, Apply(s, es[0]), es[1..], t);
    }
  }

  /** The bound for every run in which nobody changes the rate. */
  lemma ConstantRateBound(s: State, es: seq<Event>, t: State, k: nat)
    requires Initial(s) && s.rate > 0 && Run(s, es, t) && k < |t.calls|
    requires forall j :: 0 <= j < |es| && es[j].SetRate? ==> es[j].rate == s.rate
    ensures 8_000_000_000 * Delivered(t.calls[..k]) <= s.rate * (t.calls[k].done - s.now) + s.rate * k
  {
    RateUnchanged(s.rate, s, es, t);
    RateBound(s, es, t, s.rate, k);
  }

  // ------------------------------------------------------- and from below

  /** The pauses that the readers of a run are asked to make, in all. */
  function Pauses(s: State, es: seq<Event>): nat
    decreases |es|
  {
    if es == [] || !Enabled(s, es[0]) then 0
    else (if es[0].Capture? then Pos(s.allow) else 0) + Pauses(Apply(s, es[0]), es[1..])
  }

  /** The pause that nobody has been asked for yet. */
  function Pending(s: State): nat {
    if s.holder.Some? && s.holder.value < |s.readers|
       && (s.readers[s.holder.value].Sleeping? || s.readers[s.holder.value].Slept?) then 0
    else Pos(s.allow)
  }

  /** Every pause that is charged is asked for once. */
  lemma StepOwes(start: int, rate: nat, s: State, e: Event)
    requires Inv(start, s) && RateInv(rate, s) && rate > 0 && Enabled(s, e)
    ensures var t := Apply(s, e);
            (if e.Capture? then Pos(s.allow) else 0) + Pending(t) + Total(s.calls) == Pending(s) + Total(t.calls)
  {
    if e.Store? {
      var p := s.readers[e.i];
      assert ReaderInv(start, s, e.i);
      TotalSnoc(s.calls, Call(p.bytes, p.rate, s.now));
    } else if e.Capture? || e.Wake? {
      assert ReaderInv(start, s, e.i);
    }
  }

  lemma {:induction false} RunOwes(start: int, rate: nat, s: State, es: seq<Event>, t: State)
    requires Inv(start, s) && RateInv(rate, s) && rate > 0 && Run(s, es, t)
    requires forall k :: 0 <= k < |es| && es[k].SetRate? ==> es[k].rate == rate
    ensures Pauses(s, es) + Pending(t) + Total(s.calls) == Pending(s) + Total(t.calls)
    decreases |es|
  {
    if es != [] {
      StepOwes(start, rate, s, es[0]);
      StepKeepsInv(start, s, es[0]);
      RateStays(rate, s, es[0]);
      RunOwes(start, rate, Apply(s, es[0]), es[1..], t);
    }
  }

  /** In every interleaving all the pauses together are within the time in which the
      rate allows for what was delivered: nothing slows a run down but its rate. */
  lemma NotSlower(s: State, es: seq<Event>, t: State)
    requires Initial(s) && s.rate > 0 && Run(s, es, t)
    requires forall j :: 0 <= j < |es| && es[j].SetRate? ==> es[j].rate == s.rate
    ensures s.rate * Pauses(s, es) <= 8_000_000_000 * Delivered(t.calls)
  {
    RateUnchanged(s.rate, s, es, t);
    RunOwes(s.now, s.rate, s, es, t);
    TotalCovers(t.calls, s.rate);
    MulMono(s.rate, Pauses(s, es), Total(t.calls));
  }

  // ------------------------------------------- the class takes those steps

  ghost predicate Represents(c: ThrottleController, clock: Clock, s: State)
    reads c, clock
  {
    s.rate == c.rate && s.allow == c.allowNextReadAfter && s.now == clock.now
  }

  lemma {:induction false} RunAppend(s: State, a: seq<Event>, t: State, b: seq<Event>, u: State)
    requires Run(s, a, t) && Run(t, b, u)
    ensures Run(s, a + b, u)
    decreases |a|
  {
    if a == [] {
      assert a + b == b;
    } else {
      RunAppend(Apply(s, a[0]), a[1..], t, b, u);
      assert (a + b)[1..] == a[1..] + b;
    }
  }

  lemma Extend(s: State, es: seq<Event>, t: State, e: Event)
    requires Run(s, es, t) && Enabled(t, e)
    ensures Run(s, es + [e], Apply(t, e))
  {
    assert Run(Apply(t, e), [e][1..], Apply(t, e));
    RunAppend(s, es, t, [e], Apply(t, e));
  }

  /** Where a read of reader `i` leads, when its pause takes `dt` and the rate may change
      meanwhile. */
  function AfterRead(s: State, i: nat, bytes: nat, dt: nat, meanwhile: Option<nat>, x: int): State
    requires i < |s.readers|
  {
    s.(now := s.now + dt,
       rate := if meanwhile.Some? then meanwhile.value else s.rate,
       allow := if s.rate > 0 then Charge(bytes, s.rate) else x,
       readers := s.readers[i := Reading],
       calls := s.calls + [Call(bytes, s.rate, s.now + dt)])
  }

  lemma ReadRuns(s: State, i: nat, bytes: nat, dt: nat, meanwhile: Option<nat>, x: int) returns (es: seq<Event>)
    requires i < |s.readers| && s.readers[i].Reading? && s.holder.None? && dt >= s.allow
    ensures Run(s, es, AfterRead(s, i, bytes, dt, meanwhile, x))
    ensures meanwhile.None? ==> forall k :: 0 <= k < |es| ==> !es[k].SetRate?
  {
    var e1, e2, e3, e4 := DataRead(i, bytes), Lock(i), Capture(i), Tick(dt);
    var t1 := Apply(s, e1);
    var t2 := Apply(t1, e2);
    var t3 := Apply(t2, e3);
    var t4 := Apply(t3, e4);
    Extend(s, [], s, e1);
    Extend(s, [] + [e1], t1, e2);
    Extend(s, [] + [e1] + [e2], t2, e3);
    Extend(s, [] + [e1] + [e2] + [e3], t3, e4);
    es := [] + [e1] + [e2] + [e3] + [e4];
    var t5 := t4;
    if meanwhile.Some? {
      Extend(s, es, t4, SetRate(meanwhile.value));
      es, t5 := es + [SetRate(meanwhile.value)], Apply(t4, SetRate(meanwhile.value));
    }
    var t6 := Apply(t5, Wake(i));
    Extend(s, es, t5, Wake(i));
    Extend(s, es + [Wake(i)], t6, Store(i, x));
    es := es + [Wake(i)] + [Store(i, x)];
    assert Apply(t6, Store(i, x)).readers == AfterRead(s, i, bytes, dt, meanwhile, x).readers;
  }

  /** A read by any one of the readers while no other is in the section: what the class
      does is a run of the steps. */
  method ThrottledRead(c: ThrottleController, clock: Clock, bytes: nat, meanwhile: Option<nat>, ghost s: State, ghost i: nat)
    returns (ghost es: seq<Event>, ghost t: State)
    requires Represents(c, clock, s)
    requires i < |s.readers| && s.readers[i].Reading? && s.holder.None?
    modifies c, clock
    ensures Run(s, es, t) && Represents(c, clock, t)
    ensures clock.late >= old(clock.late) && clock.now == s.now + (clock.late - old(clock.late)) + Pos(s.allow)
    ensures s.rate > 0 ==> t.allow == Charge(bytes, s.rate)
    ensures t.readers == s.readers && t.holder.None? && t.calls == s.calls + [Call(bytes, s.rate, clock.now)]
    ensures meanwhile.None? ==> c.rate == old(c.rate) && forall k :: 0 <= k < |es| ==> !es[k].SetRate?
  {
    c.ConsumeBytes(bytes, clock, meanwhile);
    var dt: nat := clock.now - s.now;
    t := AfterRead(s, i, bytes, dt, meanwhile, c.allowNextReadAfter);
    es := ReadRuns(s, i, bytes, dt, meanwhile, c.allowNextReadAfter);
  }

  /** One reader reads `sizes` in turn: all it was given before the last read is within
      the rate, and takes no longer than the rate asks for, but for late sleeps. */
  method Download(c: ThrottleController, clock: Clock, sizes: seq<nat>)
    requires c.rate > 0 && c.allowNextReadAfter == 0 && sizes != []
    modifies c, clock
    ensures c.rate == old(c.rate)
    ensures 8_000_000_000 * Sum(sizes[..|sizes| - 1])
            <= c.rate * (clock.now - old(clock.now)) + c.rate * (|sizes| - 1)
    ensures clock.late >= old(clock.late)
    ensures c.rate * (clock.now - old(clock.now) - (clock.late - old(clock.late)))
            <= 8_000_000_000 * Sum(sizes[..|sizes| - 1])
  {
    ghost var s0 := State(clock.now, c.rate, 0, None, [Reading], []);
    ghost var s, es: seq<Event>, late0 := s0, [], clock.late;
    for n := 0 to |sizes|
      invariant Represents(c, clock, s) && clock.late >= late0
      invariant Downloaded(s0, es, s, sizes, n, clock.late - late0)
    {
      ghost var late := clock.late;
      ghost var es', t := ThrottledRead(c, clock, sizes[n], None, s, 0);
      OneMoreRead(s0, es, s, sizes, n, late - late0, es', t, clock.late - late0);
      s, es := t, es + es';
    }
    DownloadBounds(s0, es, s, sizes, clock.late - late0);
  }

  /** `n` reads are done, with sleeps `late` too long in all. */
  ghost predicate Downloaded(s0: State, es: seq<Event>, s: State, sizes: seq<nat>, n: nat, late: int) {
    && s0.rate > 0 && Run(s0, es, s) && (forall k :: 0 <= k < |es| ==> !es[k].SetRate?)
    && s.rate == s0.rate && s.readers == [Reading] && s.holder.None?
    && |s.calls| == n <= |sizes|
    && (forall k :: 0 <= k < n ==> s.calls[k].bytes == sizes[k] && s.calls[k].rate == s0.rate)
    && s.allow >= 0 && s.now - s0.now - late + s.allow == Total(s.calls)
    && (n > 0 ==> s.calls[n - 1].done == s.now && s.allow == Charge(sizes[n - 1], s0.rate))
  }

  lemma OneMoreRead(s0: State, es: seq<Event>, s: State, sizes: seq<nat>, n: nat, late: int,
                    es': seq<Event>, t: State, late': int)
    requires Downloaded(s0, es, s, sizes, n, late) && n < |sizes| && Run(s, es', t)
    requires forall k :: 0 <= k < |es'| ==> !es'[k].SetRate?
    requires t.rate == s.rate && t.readers == s.readers && t.holder.None? && t.calls == s.calls + [Call(sizes[n], s.rate, t.now)]
    requires t.now == s.now + (late' - late) + Pos(s.allow) && t.allow == Charge(sizes[n], s.rate)
    ensures Downloaded(s0, es + es', t, sizes, n + 1, late')
  {
    RunAppend(s0, es, s, es', t);
    TotalSnoc(s.calls, Call(sizes[n], s.rate, t.now));
  }

  lemma DownloadBounds(s0: State, es: seq<Event>, s: State, sizes: seq<nat>, late: int)
    requires Initial(s0) && sizes != [] && Downloaded(s0, es, s, sizes, |sizes|, late)
    ensures var last := |sizes| - 1;
            && 8_000_000_000 * Sum(sizes[..last]) <= s0.rate * (s.now - s0.now) + s0.rate * last
            && s0.rate * (s.now - s0.now - late) <= 8_000_000_000 * Sum(sizes[..last])
  {
    var last := |sizes| - 1;
    ConstantRateBound(s0, es, s, last);
    DeliveredIsSum(s.calls[..last], sizes[..last]);
    TotalCovers(s.calls[..last], s0.rate);
  }

  lemma {:induction false} DeliveredIsSum(calls: seq<Call>, sizes: seq<nat>)
    requires |calls| == |sizes| && forall k :: 0 <= k < |calls| ==> calls[k].bytes == sizes[k]
    ensures Delivered(calls) == Sum(sizes)
    decreases |calls|
  {
    if calls != [] { DeliveredIsSum(calls[..|calls| - 1], sizes[..|calls| - 1]); }
  }

  function Sum(sizes: seq<nat>): nat {
    if sizes == [] then 0 else Sum(sizes[..|sizes| - 1]) + sizes[|sizes| - 1]
  }
}
