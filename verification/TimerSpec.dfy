/** The timer queue as a value: what starting, stopping and the interrupt do, and what holds in
    every run of them. */
module TimerSpec {
  import opened TimeVal
  import opened Seqs

  datatype EventState = Inactive | Active | Executing

  /** A handler run: the event, its deadline and the clock reading it was judged by. */
  datatype Run = Run(event: nat, deadline: Packed, now: Packed)

  /** Events are named by number; `tick` is the deadline the hardware was last programmed for. */
  datatype Timers = Timers(active: seq<nat>, expires: map<nat, Packed>, state: map<nat, EventState>,
                           expiresNext: Packed, tick: Packed, stamp: Packed, ran: seq<Run>)

  // ----- the operations

  /** The first place whose deadline is later; equal deadlines stay ahead. */
  function Place(q: seq<nat>, expires: map<nat, Packed>, at: Packed): (i: nat)
    requires forall e :: e in q ==> e in expires
    ensures i <= |q|
  {
    if |q| == 0 || at < expires[q[0]] then 0 else 1 + Place(q[1..], expires, at)
  }

  /** Programming the hardware for a deadline takes one more clock reading. */
  function Program(t: Timers, at: Packed, elapsed: Packed): Timers {
    t.(stamp := TimevalAdd(t.stamp, elapsed), expiresNext := at, tick := at)
  }

  predicate Known(t: Timers) { (forall e :: e in t.active ==> e in t.expires) && t.expires.Keys == t.state.Keys }

  function Inserted(q: seq<nat>, p: nat, e: nat): (r: seq<nat>)
    requires p <= |q|
    ensures |r| == |q| + 1
  {
    q[..p] + [e] + q[p..]
  }

  /** Queues event `e` to expire `delay` after now. */
  function Start(t: Timers, e: nat, delay: Packed, elapsed: Packed, elapsed': Packed): Timers
    requires Known(t)
  {
    var now := TimevalAdd(t.stamp, elapsed);
    var at := TimevalAdd(now, delay);
    var expires := t.expires[e := at];
    var p := Place(t.active, expires, at);
    var u := t.(stamp := now, expires := expires, active := Inserted(t.active, p, e), state := t.state[e := Active]);
    if t.expiresNext > at then Program(u, at, elapsed') else u
  }

  function Stop(t: Timers, e: nat, elapsed: Packed): Timers
    requires Known(t) && e in t.state
  {
    if t.state[e] != Active then t
    else
      var u :=
        if t.active != [] && t.active[0] == e && t.expires[e] == t.expiresNext then
          var next := if |t.active| == 1 then TIMEVAL_MAX else t.expires[t.active[1]];
          if next != t.expiresNext then Program(t, next, elapsed) else t
        else t;
      u.(active := Without(t.active, e), state := t.state[e := Inactive])
  }

  /** One handler run, and the whole interrupt; `elapsed` are the times between clock readings. */
  function RunFirst(t: Timers, elapsed: Packed): Timers
    requires Known(t) && t.active != []
  {
    var now, e := TimevalAdd(t.stamp, elapsed), t.active[0];
    t.(stamp := now, active := t.active[1..], state := t.state[e := Inactive],
       ran := t.ran + [Run(e, t.expires[e], now)])
  }

  predicate FirstIsDue(t: Timers, elapsed: Packed)
    requires Known(t) && t.active != []
  {
    !TimevalAfter(t.expires[t.active[0]], TimevalAdd(t.stamp, elapsed))
  }

  function Interrupt(t: Timers, elapsed: seq<Packed>): Timers
    requires Known(t) && |elapsed| > |t.active|
    decreases |t.active|
  {
    if |t.active| == 0 then t.(expiresNext := TIMEVAL_MAX)
    else if FirstIsDue(t, elapsed[0]) then Interrupt(RunFirst(t, elapsed[0]), elapsed[1..])
    else
      var at := t.expires[t.active[0]];
      var next := if at < TIMEVAL_MAX then at else TIMEVAL_MAX;
      Program(t.(stamp := TimevalAdd(t.stamp, elapsed[0])), next, elapsed[1]).(expiresNext := TIMEVAL_MAX)
  }

  // ----- what holds

  predicate Sorted(q: seq<nat>, expires: map<nat, Packed>)
    requires forall e :: e in q ==> e in expires
  {
    forall i, j :: 0 <= i < j < |q| ==> expires[q[i]] <= expires[q[j]]
  }

  /** A queued deadline is an ordinary time. */
  predicate Deadline(at: Packed) { Normal(at) && 0 <= at <= TIMEVAL_MAX }

  /** Sorted without repeats, ACTIVE exactly when queued, every time ordinary. */
  predicate Inv(t: Timers) {
    Known(t) && NoRepeats(t.active) && Sorted(t.active, t.expires) &&
    (forall e :: e in t.state ==> (t.state[e] == Active <==> e in t.active)) &&
    (forall e :: e in t.active ==> Deadline(t.expires[e])) && Normal(t.stamp) && t.stamp >= 0
  }

  /** The next expiry on record is the least deadline. */
  predicate Armed(t: Timers)
    requires Known(t)
  {
    t.expiresNext == if t.active == [] then TIMEVAL_MAX else t.expires[t.active[0]]
  }

  /** The hardware is programmed for the least deadline. */
  predicate TickRight(t: Timers)
    requires Known(t)
  {
    t.active != [] ==> t.tick == t.expires[t.active[0]]
  }

  /** The clock goes on without overflow. */
  predicate Elapses(stamp: Packed, d: Packed) {
    Normal(stamp) && stamp >= 0 && Normal(d) && d >= 0 && SecFits(Time(stamp) + Time(d))
  }

  lemma ClockForward(stamp: Packed, d: Packed)
    requires Elapses(stamp, d)
    ensures Normal(TimevalAdd(stamp, d)) && TimevalAdd(stamp, d) >= stamp
    ensures Time(TimevalAdd(stamp, d)) == Time(stamp) + Time(d)
  {
    AddExactIff(stamp, d);
    PackedOrder(TimevalAdd(stamp, d), stamp);
    PackedOrder(d, 0);
  }

  // ----- inserting

  /** Everything ahead of the new event is due no later, everything behind strictly later. */
  lemma {:induction false} PlaceSplits(q: seq<nat>, expires: map<nat, Packed>, at: Packed)
    requires (forall e :: e in q ==> e in expires) && Sorted(q, expires)
    ensures forall i :: 0 <= i < Place(q, expires, at) ==> expires[q[i]] <= at
    ensures forall i :: Place(q, expires, at) <= i < |q| ==> at < expires[q[i]]
  {
    if |q| > 0 && at >= expires[q[0]] {
      var p := Place(q, expires, at);
      PlaceSplits(q[1..], expires, at);
      forall i | 0 <= i < p ensures expires[q[i]] <= at { if i > 0 { assert q[i] == q[1..][i - 1]; } }
      forall i | p <= i < |q| ensures at < expires[q[i]] { assert q[i] == q[1..][i - 1]; }
    }
  }

  lemma InsertedAt(q: seq<nat>, p: nat, e: nat, j: nat)
    requires p <= |q| && j <= |q|
    ensures Inserted(q, p, e)[j] == if j < p then q[j] else if j == p then e else q[j - 1]
  {
  }

  lemma InsertedMembers(q: seq<nat>, p: nat, e: nat, x: nat)
    requires p <= |q|
    ensures x in Inserted(q, p, e) <==> x in q || x == e
  {
    assert q == q[..p] + q[p..];
  }

  lemma InsertedNoRepeats(q: seq<nat>, p: nat, e: nat)
    requires p <= |q| && NoRepeats(q) && e !in q
    ensures NoRepeats(Inserted(q, p, e))
  {
    var r := Inserted(q, p, e);
    forall i, j | 0 <= i < j < |r| ensures r[i] != r[j] {
      InsertedAt(q, p, e, i);
      InsertedAt(q, p, e, j);
    }
  }

  lemma InsertSorted(q: seq<nat>, expires: map<nat, Packed>, e: nat)
    requires (forall x :: x in q ==> x in expires) && Sorted(q, expires) && e in expires
    ensures var r := Inserted(q, Place(q, expires, expires[e]), e);
      (forall x :: x in r ==> x in expires) && Sorted(r, expires)
  {
    var p := Place(q, expires, expires[e]);
    var r := Inserted(q, p, e);
    PlaceSplits(q, expires, expires[e]);
    forall x | x in r ensures x in expires { InsertedMembers(q, p, e, x); }
    forall i, j | 0 <= i < j < |r| ensures expires[r[i]] <= expires[r[j]] {
      InsertedAt(q, p, e, i);
      InsertedAt(q, p, e, j);
    }
  }

  // ----- starting

  /** A start is in order when the event is not queued and its deadline is ordinary. */
  predicate CanStart(t: Timers, e: nat, delay: Packed, elapsed: Packed, elapsed': Packed) {
    e in t.state && t.state[e] == Inactive &&
    Elapses(t.stamp, elapsed) && Elapses(TimevalAdd(t.stamp, elapsed), elapsed') &&
    Elapses(TimevalAdd(t.stamp, elapsed), delay) && TimevalAdd(TimevalAdd(t.stamp, elapsed), delay) <= TIMEVAL_MAX
  }

  function StartDeadline(t: Timers, delay: Packed, elapsed: Packed): Packed {
    TimevalAdd(TimevalAdd(t.stamp, elapsed), delay)
  }

  /** What a start records: the clock reading plus the delay, and no other event's deadline changes. */
  lemma StartRecords(t: Timers, e: nat, delay: Packed, elapsed: Packed, elapsed': Packed)
    requires Inv(t) && CanStart(t, e, delay, elapsed, elapsed')
    ensures var r := Start(t, e, delay, elapsed, elapsed');
      && e in r.expires && Time(r.expires[e]) == Time(t.stamp) + Time(elapsed) + Time(delay)
      && r.expires.Keys == t.expires.Keys && forall x :: x in t.expires && x != e ==> r.expires[x] == t.expires[x]
  {
    ClockForward(t.stamp, elapsed);
    ClockForward(TimevalAdd(t.stamp, elapsed), delay);
  }

  /** The event is queued and becomes Active; the others keep their state and their order. */
  lemma StartQueues(t: Timers, e: nat, delay: Packed, elapsed: Packed, elapsed': Packed)
    requires Inv(t) && CanStart(t, e, delay, elapsed, elapsed')
    ensures var r := Start(t, e, delay, elapsed, elapsed');
      e in r.active && Without(r.active, e) == t.active && r.state == t.state[e := Active] && r.ran == t.ran
  {
    var p := Place(t.active, t.expires[e := StartDeadline(t, delay, elapsed)], StartDeadline(t, delay, elapsed));
    WithoutInserted(t.active, p, e);
    InsertedMembers(t.active, p, e, e);
  }

  /** The record becomes the lesser of itself and the new deadline, and the tick is programmed exactly when
      that changes the record. */
  lemma StartPrograms(t: Timers, e: nat, delay: Packed, elapsed: Packed, elapsed': Packed)
    requires Inv(t) && CanStart(t, e, delay, elapsed, elapsed')
    ensures var r, at := Start(t, e, delay, elapsed, elapsed'), StartDeadline(t, delay, elapsed);
      && r.expiresNext <= t.expiresNext && r.expiresNext <= at && r.expiresNext in {t.expiresNext, at}
      && r.tick == if r.expiresNext != t.expiresNext then at else t.tick
  {
  }

  /** A start keeps the invariant, and the deadline is now plus the delay. */
  lemma StartKeeps(t: Timers, e: nat, delay: Packed, elapsed: Packed, elapsed': Packed)
    requires Inv(t) && CanStart(t, e, delay, elapsed, elapsed')
    ensures Inv(Start(t, e, delay, elapsed, elapsed'))
    ensures var r := Start(t, e, delay, elapsed, elapsed');
      && Time(r.expires[e]) == Time(t.stamp) + Time(elapsed) + Time(delay)
      && forall x :: x in t.expires && x != e ==> x in r.expires && r.expires[x] == t.expires[x]
  {
    StartOrder(t, e, delay, elapsed, elapsed');
    StartRecords(t, e, delay, elapsed, elapsed');
  }

  lemma StartOrder(t: Timers, e: nat, delay: Packed, elapsed: Packed, elapsed': Packed)
    requires Inv(t) && CanStart(t, e, delay, elapsed, elapsed')
    ensures Inv(Start(t, e, delay, elapsed, elapsed'))
  {
    var now, at := TimevalAdd(t.stamp, elapsed), StartDeadline(t, delay, elapsed);
    ClockForward(t.stamp, elapsed);
    ClockForward(now, elapsed');
    ClockForward(now, delay);
    var expires := t.expires[e := at];
    var p := Place(t.active, expires, at);
    InsertSorted(t.active, expires, e);
    InsertedNoRepeats(t.active, p, e);
    forall x ensures x in Inserted(t.active, p, e) <==> x in t.active || x == e { InsertedMembers(t.active, p, e, x); }
  }

  lemma {:induction false} WithoutInserted(q: seq<nat>, p: nat, e: nat)
    requires p <= |q| && e !in q
    ensures Without(Inserted(q, p, e), e) == q
  {
    var r := Inserted(q, p, e);
    if p > 0 {
      WithoutInserted(q[1..], p - 1, e);
      assert r[1..] == Inserted(q[1..], p - 1, e);
    }
  }

  /** When the record is right it stays right, and so does the hardware. */
  lemma StartArms(t: Timers, e: nat, delay: Packed, elapsed: Packed, elapsed': Packed)
    requires Inv(t) && CanStart(t, e, delay, elapsed, elapsed') && Armed(t)
    ensures Known(Start(t, e, delay, elapsed, elapsed')) && Armed(Start(t, e, delay, elapsed, elapsed'))
    ensures TickRight(t) && StartDeadline(t, delay, elapsed) < TIMEVAL_MAX ==>
              TickRight(Start(t, e, delay, elapsed, elapsed'))
  {
    StartKeeps(t, e, delay, elapsed, elapsed');
  }

  /** After an interrupt that left events queued the record is reset; a start then programs the
      hardware rightly exactly when the new event is due no later than all the queued ones. */
  lemma StartAfterReset(t: Timers, e: nat, delay: Packed, elapsed: Packed, elapsed': Packed)
    requires Inv(t) && CanStart(t, e, delay, elapsed, elapsed') && t.active != [] && TickRight(t)
    requires t.expiresNext == TIMEVAL_MAX && StartDeadline(t, delay, elapsed) < TIMEVAL_MAX
    ensures Known(Start(t, e, delay, elapsed, elapsed'))
    ensures TickRight(Start(t, e, delay, elapsed, elapsed')) <==>
              StartDeadline(t, delay, elapsed) <= t.expires[t.active[0]]
  {
    StartKeeps(t, e, delay, elapsed, elapsed');
  }

  // ----- stopping

  lemma WithoutSorted(q: seq<nat>, e: nat, expires: map<nat, Packed>)
    requires NoRepeats(q) && (forall x :: x in q ==> x in expires) && Sorted(q, expires)
    ensures (forall x :: x in Without(q, e) ==> x in expires) && Sorted(Without(q, e), expires)
  {
    WithoutKeeps(q, e);
    var r := Without(q, e);
    forall j, k | 0 <= j < k < |r| ensures expires[r[j]] <= expires[r[k]] {
      var j', k' := WithoutOrder(q, e, j, k);
    }
  }

  lemma StopKeeps(t: Timers, e: nat, elapsed: Packed)
    requires Inv(t) && e in t.state && Elapses(t.stamp, elapsed)
    ensures Inv(Stop(t, e, elapsed)) && e !in Stop(t, e, elapsed).active
  {
    ClockForward(t.stamp, elapsed);
    if t.state[e] == Active {
      WithoutKeeps(t.active, e);
      WithoutSorted(t.active, e, t.expires);
    }
  }

  lemma StopArms(t: Timers, e: nat, elapsed: Packed)
    requires Inv(t) && e in t.state && Elapses(t.stamp, elapsed) && Armed(t)
    ensures Known(Stop(t, e, elapsed)) && Armed(Stop(t, e, elapsed))
    ensures TickRight(t) ==> TickRight(Stop(t, e, elapsed))
  {
    StopKeeps(t, e, elapsed);
  }

  /** The event that is stopped leaves the queue and becomes inactive; the others keep their order, state and
      deadlines.  An event that is not queued is left alone. */
  lemma StopLeaves(t: Timers, e: nat, elapsed: Packed)
    requires Inv(t) && e in t.state
    ensures var r := Stop(t, e, elapsed);
      r.active == Without(t.active, e) && r.expires == t.expires && r.ran == t.ran &&
      r.state == if t.state[e] == Active then t.state[e := Inactive] else t.state
  {
    if t.state[e] != Active { WithoutAbsent(t.active, e); }
  }

  /** The tick changes only when the first event is stopped while its deadline is on record: then it is
      programmed for the next event, unless that is due at the same time. */
  lemma StopPrograms(t: Timers, e: nat, elapsed: Packed)
    requires Inv(t) && e in t.state
    ensures var r, q := Stop(t, e, elapsed), t.active;
      if q != [] && q[0] == e && t.expires[e] == t.expiresNext then
        r.expiresNext == (if |q| == 1 then TIMEVAL_MAX else t.expires[q[1]]) &&
        r.tick == if r.expiresNext == t.expiresNext then t.tick else r.expiresNext
      else
        r.tick == t.tick && r.expiresNext == t.expiresNext && r.stamp == t.stamp
  {
  }

  /** After an interrupt that left events queued the record is reset; stopping the first event then leaves the
      tick as it was, so that it is right exactly when the next event is due at the same time or there is none. */
  lemma StopAfterReset(t: Timers, e: nat, elapsed: Packed)
    requires Inv(t) && t.active != [] && e == t.active[0] && TickRight(t)
    requires t.expiresNext == TIMEVAL_MAX && t.expires[e] != TIMEVAL_MAX
    ensures var r := Stop(t, e, elapsed);
      r.tick == t.tick == t.expires[e] && r.stamp == t.stamp && r.expiresNext == TIMEVAL_MAX && Known(r) &&
      (TickRight(r) <==> |t.active| == 1 || t.expires[t.active[1]] == t.expires[e])
  {
  }

  // ----- the interrupt

  /** The `k`-th clock reading. */
  function Clock(stamp: Packed, elapsed: seq<Packed>, k: nat): Packed
    requires k <= |elapsed|
    decreases k
  {
    if k == 0 then stamp else Clock(TimevalAdd(stamp, elapsed[0]), elapsed[1..], k - 1)
  }

  predicate Ticks(stamp: Packed, elapsed: seq<Packed>)
    decreases |elapsed|
  {
    |elapsed| > 0 ==> Elapses(stamp, elapsed[0]) && Ticks(TimevalAdd(stamp, elapsed[0]), elapsed[1..])
  }

  /** How many events one interrupt runs. */
  function DueCount(t: Timers, elapsed: seq<Packed>): (n: nat)
    requires Known(t) && |elapsed| > |t.active|
    ensures n <= |t.active|
    decreases |t.active|
  {
    if |t.active| == 0 || !FirstIsDue(t, elapsed[0]) then 0 else 1 + DueCount(RunFirst(t, elapsed[0]), elapsed[1..])
  }

  lemma RunFirstKeeps(t: Timers, elapsed: Packed)
    requires Inv(t) && t.active != [] && Elapses(t.stamp, elapsed)
    ensures Inv(RunFirst(t, elapsed))
  {
    ClockForward(t.stamp, elapsed);
    var q := t.active[1..];
    assert forall x :: x in t.active <==> x == t.active[0] || x in q;
    assert forall j :: 0 <= j < |q| ==> q[j] == t.active[j + 1];
  }

  lemma {:induction false} InterruptKeeps(t: Timers, elapsed: seq<Packed>)
    requires Inv(t) && |elapsed| > |t.active| && Ticks(t.stamp, elapsed)
    ensures Inv(Interrupt(t, elapsed))
    decreases |t.active|
  {
    if |t.active| > 0 {
      if FirstIsDue(t, elapsed[0]) {
        RunFirstKeeps(t, elapsed[0]);
        InterruptKeeps(RunFirst(t, elapsed[0]), elapsed[1..]);
      } else {
        ClockForward(t.stamp, elapsed[0]);
        assert Elapses(TimevalAdd(t.stamp, elapsed[0]), elapsed[1..][0]);
        ClockForward(TimevalAdd(t.stamp, elapsed[0]), elapsed[1]);
      }
    }
  }

  /** What is logged for the `k`-th event of the queue. */
  function Logged(t: Timers, elapsed: seq<Packed>, k: nat): Run
    requires Known(t) && k < |t.active| < |elapsed|
  {
    Run(t.active[k], t.expires[t.active[k]], Clock(t.stamp, elapsed, k + 1))
  }

  function Log(t: Timers, elapsed: seq<Packed>): (r: seq<Run>)
    requires Known(t) && |elapsed| > |t.active|
    ensures |r| == DueCount(t, elapsed)
    decreases |t.active|
  {
    if |t.active| == 0 || !FirstIsDue(t, elapsed[0]) then []
    else
      [Run(t.active[0], t.expires[t.active[0]], TimevalAdd(t.stamp, elapsed[0]))] +
      Log(RunFirst(t, elapsed[0]), elapsed[1..])
  }

  /** The log goes along the queue, one clock reading an event. */
  lemma {:induction false} LogAt(t: Timers, elapsed: seq<Packed>, k: nat)
    requires Known(t) && |elapsed| > |t.active| && k < DueCount(t, elapsed)
    ensures Log(t, elapsed)[k] == Logged(t, elapsed, k)
    decreases k
  {
    if k > 0 {
      LogAt(RunFirst(t, elapsed[0]), elapsed[1..], k - 1);
    } else {
      assert Clock(TimevalAdd(t.stamp, elapsed[0]), elapsed[1..], 0) == Clock(t.stamp, elapsed, 1);
    }
  }

  /** The interrupt runs a prefix of the queue, in order, and leaves the rest queued. */
  lemma {:induction false} InterruptRuns(t: Timers, elapsed: seq<Packed>)
    requires Known(t) && |elapsed| > |t.active|
    ensures Interrupt(t, elapsed).active == t.active[DueCount(t, elapsed)..]
    ensures Interrupt(t, elapsed).expires == t.expires
    ensures Interrupt(t, elapsed).ran == t.ran + Log(t, elapsed)
    decreases |t.active|
  {
    if DueCount(t, elapsed) > 0 { InterruptRuns(RunFirst(t, elapsed[0]), elapsed[1..]); }
  }

  /** The events that ran are inactive again, all others keep their state; the clock was read once for each run
      and, when events are left, twice more. */
  lemma {:induction false} InterruptSettles(t: Timers, elapsed: seq<Packed>, x: nat)
    requires Known(t) && |elapsed| > |t.active| && x in t.state
    ensures var n, r := DueCount(t, elapsed), Interrupt(t, elapsed);
      && x in r.state && r.state[x] == (if x in t.active[..n] then Inactive else t.state[x])
      && r.stamp == Clock(t.stamp, elapsed, if n == |t.active| then n else n + 2)
    decreases |t.active|
  {
    var n := DueCount(t, elapsed);
    if n > 0 {
      var u := RunFirst(t, elapsed[0]);
      InterruptSettles(u, elapsed[1..], x);
      assert t.active[..n] == [t.active[0]] + u.active[..n - 1];
    } else if |t.active| > 0 {
      assert elapsed[1..][0] == elapsed[1];
      assert Clock(TimevalAdd(TimevalAdd(t.stamp, elapsed[0]), elapsed[1]), elapsed[1..][1..], 0) ==
        Clock(t.stamp, elapsed, 2);
    }
  }

  /** No handler runs more than 1000 ns before its deadline. */
  lemma {:induction false} NeverEarly(t: Timers, elapsed: seq<Packed>, k: nat)
    requires Inv(t) && |elapsed| > |t.active| && Ticks(t.stamp, elapsed) && k < DueCount(t, elapsed)
    ensures Time(Logged(t, elapsed, k).deadline) - Time(Logged(t, elapsed, k).now) <= 1000
    decreases |t.active|
  {
    var u := RunFirst(t, elapsed[0]);
    if k > 0 {
      RunFirstKeeps(t, elapsed[0]);
      NeverEarly(u, elapsed[1..], k - 1);
    } else {
      DueIff(t, elapsed[0]);
      assert Clock(u.stamp, elapsed[1..], 0) == Clock(t.stamp, elapsed, 1);
    }
  }

  lemma DueIff(t: Timers, elapsed: Packed)
    requires Inv(t) && t.active != [] && Elapses(t.stamp, elapsed)
    ensures FirstIsDue(t, elapsed) <==> Time(t.expires[t.active[0]]) - Time(TimevalAdd(t.stamp, elapsed)) <= 1000
  {
    var at, now := t.expires[t.active[0]], TimevalAdd(t.stamp, elapsed);
    ClockForward(t.stamp, elapsed);
    AfterNonNegative(at, now);
  }

  lemma AfterNonNegative(a: Packed, b: Packed)
    requires Normal(a) && Normal(b) && a >= 0 && b >= 0
    ensures TimevalAfter(a, b) <==> Time(a) - Time(b) > 1000
  {
    SecOf(Sec(a) - Sec(b), Nsec(a) - Nsec(b));
    AfterIff(a, b);
  }

  lemma AllLater(t: Timers, elapsed: Packed, k: nat)
    requires Inv(t) && k < |t.active| && Elapses(t.stamp, elapsed) && !FirstIsDue(t, elapsed)
    ensures Time(t.expires[t.active[k]]) - Time(TimevalAdd(t.stamp, elapsed)) > 1000
  {
    DueIff(t, elapsed);
    PackedOrder(t.expires[t.active[k]], t.expires[t.active[0]]);
  }

  /** What is left is more than 1000 ns away from the last clock reading. */
  lemma {:induction false} LeftIsLater(t: Timers, elapsed: seq<Packed>, k: nat)
    requires Inv(t) && |elapsed| > |t.active| && Ticks(t.stamp, elapsed) && DueCount(t, elapsed) <= k < |t.active|
    ensures Time(t.expires[t.active[k]]) - Time(Clock(t.stamp, elapsed, DueCount(t, elapsed) + 1)) > 1000
    decreases |t.active|
  {
    var n := DueCount(t, elapsed);
    if n > 0 {
      var u := RunFirst(t, elapsed[0]);
      RunFirstKeeps(t, elapsed[0]);
      LeftIsLater(u, elapsed[1..], k - 1);
      assert u.expires == t.expires && u.active[k - 1] == t.active[k];
      assert Clock(t.stamp, elapsed, n + 1) == Clock(u.stamp, elapsed[1..], n);
    } else {
      assert Clock(TimevalAdd(t.stamp, elapsed[0]), elapsed[1..], 0) == Clock(t.stamp, elapsed, 1);
      AllLater(t, elapsed[0], k);
    }
  }

  /** The record is reset, and the hardware is programmed for the first event that is left. */
  lemma {:induction false} InterruptProgram(t: Timers, elapsed: seq<Packed>)
    requires Inv(t) && |elapsed| > |t.active| && Ticks(t.stamp, elapsed)
    ensures Interrupt(t, elapsed).expiresNext == TIMEVAL_MAX && TickRightAt(Interrupt(t, elapsed))
    decreases |t.active|
  {
    if DueCount(t, elapsed) > 0 {
      RunFirstKeeps(t, elapsed[0]);
      InterruptProgram(RunFirst(t, elapsed[0]), elapsed[1..]);
    }
  }

  predicate TickRightAt(t: Timers) { Known(t) && TickRight(t) }

  /** After an interrupt the record is right exactly when nothing is left (or nothing that is ever due). */
  lemma InterruptArmsIff(t: Timers, elapsed: seq<Packed>)
    requires Inv(t) && |elapsed| > |t.active| && Ticks(t.stamp, elapsed)
    ensures var r := Interrupt(t, elapsed);
      Known(r) && (Armed(r) <==> r.active == [] || r.expires[r.active[0]] == TIMEVAL_MAX)
  {
    InterruptKeeps(t, elapsed);
    InterruptProgram(t, elapsed);
  }
}
