/** Runs of the timer: what holds however starts, stops and interrupts follow one another. */
module TimerRuns {
  import opened TimeVal
  import opened Seqs
  import opened TimerSpec

  datatype Op =
    | DoStart(event: nat, delay: Packed, elapsed: Packed, elapsed': Packed)
    | DoStop(event: nat, wait: Packed)
    | DoInterrupt(waits: seq<Packed>)

  predicate Legal(t: Timers, op: Op) {
    Known(t) &&
    match op
    case DoStart(e, delay, d, d') => CanStart(t, e, delay, d, d')
    case DoStop(e, d) => e in t.state && Elapses(t.stamp, d)
    case DoInterrupt(ds) => |ds| > |t.active| && Ticks(t.stamp, ds)
  }

  function Apply(t: Timers, op: Op): Timers
    requires Legal(t, op)
  {
    match op
    case DoStart(e, delay, d, d') => Start(t, e, delay, d, d')
    case DoStop(e, d) => Stop(t, e, d)
    case DoInterrupt(ds) => Interrupt(t, ds)
  }

  predicate LegalRun(t: Timers, ops: seq<Op>)
    decreases |ops|
  {
    |ops| > 0 ==> Legal(t, ops[0]) && LegalRun(Apply(t, ops[0]), ops[1..])
  }

  function Play(t: Timers, ops: seq<Op>): Timers
    requires LegalRun(t, ops)
    decreases |ops|
  {
    if |ops| == 0 then t else Play(Apply(t, ops[0]), ops[1..])
  }

  lemma StepKeeps(t: Timers, op: Op)
    requires Inv(t) && Legal(t, op)
    ensures Inv(Apply(t, op))
  {
    match op
    case DoStart(e, delay, d, d') => StartKeeps(t, e, delay, d, d');
    case DoStop(e, d) => StopKeeps(t, e, d);
    case DoInterrupt(ds) => InterruptKeeps(t, ds);
  }

  /** In every reachable state the queue is sorted without repeats and ACTIVE means queued. */
  lemma {:induction false} EveryRun(t: Timers, ops: seq<Op>)
    requires Inv(t) && LegalRun(t, ops)
    ensures Inv(Play(t, ops))
    decreases |ops|
  {
    if |ops| > 0 {
      StepKeeps(t, ops[0]);
      EveryRun(Apply(t, ops[0]), ops[1..]);
    }
  }

  // ----- the record of the next expiry

  /** An interrupt that leaves nothing queued, or no interrupt. */
  predicate Drains(t: Timers, op: Op)
    requires Legal(t, op)
  {
    op.DoInterrupt? ==> Interrupt(t, op.waits).active == []
  }

  predicate DrainingRun(t: Timers, ops: seq<Op>)
    requires LegalRun(t, ops)
    decreases |ops|
  {
    |ops| > 0 ==> Drains(t, ops[0]) && DrainingRun(Apply(t, ops[0]), ops[1..])
  }

  /** From an empty queue the record is the least deadline after every run whose interrupts drain. */
  lemma {:induction false} RunArmed(t: Timers, ops: seq<Op>)
    requires Inv(t) && Armed(t) && LegalRun(t, ops) && DrainingRun(t, ops)
    ensures Known(Play(t, ops)) && Armed(Play(t, ops))
    decreases |ops|
  {
    if |ops| > 0 {
      var op := ops[0];
      StepKeeps(t, op);
      match op {
        case DoStart(e, delay, d, d') => StartArms(t, e, delay, d, d');
        case DoStop(e, d) => StopArms(t, e, d);
        case DoInterrupt(ds) => InterruptArmsIff(t, ds);
      }
      RunArmed(Apply(t, op), ops[1..]);
    }
  }

  /** A state to start from: an empty queue on a running clock, the record cleared. */
  predicate Initial(t: Timers) {
    Known(t) && t.active == [] && t.expiresNext == TIMEVAL_MAX && Normal(t.stamp) && t.stamp >= 0 &&
    forall e :: e in t.state ==> t.state[e] == Inactive
  }

  lemma FromEmpty(t: Timers, ops: seq<Op>)
    requires Initial(t) && LegalRun(t, ops) && DrainingRun(t, ops)
    ensures Inv(Play(t, ops)) && Armed(Play(t, ops))
  {
    EveryRun(t, ops);
    RunArmed(t, ops);
  }

  // ----- every start is accounted for

  function Queued(t: Timers, e: nat): nat { if e in t.active then 1 else 0 }

  function Runs(ran: seq<Run>, e: nat): nat {
    if |ran| == 0 then 0 else (if ran[0].event == e then 1 else 0) + Runs(ran[1..], e)
  }

  function Starts(t: Timers, ops: seq<Op>, e: nat): nat
    requires LegalRun(t, ops)
    decreases |ops|
  {
    if |ops| == 0 then 0
    else (if ops[0].DoStart? && ops[0].event == e then 1 else 0) + Starts(Apply(t, ops[0]), ops[1..], e)
  }

  /** Stops that take the event off the queue. */
  function Stops(t: Timers, ops: seq<Op>, e: nat): nat
    requires LegalRun(t, ops)
    decreases |ops|
  {
    if |ops| == 0 then 0
    else (if ops[0].DoStop? && ops[0].event == e then Queued(t, e) else 0) + Stops(Apply(t, ops[0]), ops[1..], e)
  }

  lemma {:induction false} RunsConcat(a: seq<Run>, b: seq<Run>, e: nat)
    ensures Runs(a + b, e) == Runs(a, e) + Runs(b, e)
  {
    if |a| > 0 {
      assert (a + b)[1..] == a[1..] + b;
      RunsConcat(a[1..], b, e);
    } else {
      assert a + b == b;
    }
  }

  lemma {:induction false} InterruptAccounts(t: Timers, ds: seq<Packed>, e: nat)
    requires Inv(t) && |ds| > |t.active| && Ticks(t.stamp, ds)
    ensures Runs(Interrupt(t, ds).ran, e) + Queued(Interrupt(t, ds), e) == Runs(t.ran, e) + Queued(t, e)
    decreases |t.active|
  {
    if |t.active| > 0 && FirstIsDue(t, ds[0]) {
      var u := RunFirst(t, ds[0]);
      RunFirstKeeps(t, ds[0]);
      InterruptAccounts(u, ds[1..], e);
      RunsConcat(t.ran, [u.ran[|t.ran|]], e);
      Split(t.active);
    }
  }

  lemma StepAccounts(t: Timers, op: Op, e: nat)
    requires Inv(t) && Legal(t, op)
    ensures Runs(Apply(t, op).ran, e) + Queued(Apply(t, op), e)
          + (if op.DoStop? && op.event == e then Queued(t, e) else 0)
         == Runs(t.ran, e) + Queued(t, e) + if op.DoStart? && op.event == e then 1 else 0
  {
    match op
    case DoStart(x, delay, d, d') =>
      var u := Start(t, x, delay, d, d');
      var at := StartDeadline(t, delay, d);
      InsertedMembers(t.active, Place(t.active, t.expires[x := at], at), x, e);
    case DoStop(x, d) =>
      WithoutKeeps(t.active, x);
    case DoInterrupt(ds) =>
      InterruptAccounts(t, ds, e);
  }

  /** Each start is answered by one handler run or one stop, or the event is still queued: no event
      runs twice for one start, and none is lost. */
  lemma {:induction false} EveryStartOnce(t: Timers, ops: seq<Op>, e: nat)
    requires Inv(t) && LegalRun(t, ops)
    ensures Runs(Play(t, ops).ran, e) + Queued(Play(t, ops), e) + Stops(t, ops, e)
         == Runs(t.ran, e) + Queued(t, e) + Starts(t, ops, e)
    decreases |ops|
  {
    if |ops| > 0 {
      StepKeeps(t, ops[0]);
      StepAccounts(t, ops[0], e);
      EveryStartOnce(Apply(t, ops[0]), ops[1..], e);
    }
  }
}
