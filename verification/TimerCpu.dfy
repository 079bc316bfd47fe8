/** The timer driver's state, updated in place as the source does. */
module TimerCpu {
  import opened TimeVal
  import opened Seqs
  import opened TimerSpec

  class Cpu {
    var active: seq<nat>
    var expires: map<nat, Packed>
    var state: map<nat, EventState>
    var expiresNext: Packed
    var tick: Packed
    var stamp: Packed
    var numEvents: nat
    var ran: seq<Run>

    constructor (stamp: Packed)
      ensures T() == Timers([], map[], map[], TIMEVAL_MAX, TIMEVAL_MAX, stamp, []) && numEvents == 0
    {
      active, expires, state, ran := [], map[], map[], [];
      expiresNext, tick, this.stamp, numEvents := TIMEVAL_MAX, TIMEVAL_MAX, stamp, 0;
    }

    /** The state as a value. */
    function T(): Timers
      reads this
    {
      Timers(active, expires, state, expiresNext, tick, stamp, ran)
    }

    /** A new event: inactive, never due. */
    method EventCreate(e: nat)
      requires e !in state
      modifies this
      ensures T() == old(T()).(expires := old(expires)[e := TIMEVAL_MAX], state := old(state)[e := Inactive])
      ensures numEvents == old(numEvents)
    {
      expires, state := expires[e := TIMEVAL_MAX], state[e := Inactive];
    }

    /** An event may be destroyed only when it is inactive. */
    method EventDestroy(e: nat) returns (r: int)
      requires Inv(T()) && e in state
      modifies this
      ensures r == 0 <==> old(state[e]) == Inactive
      ensures r == -1 || r == 0
      ensures r == 0 ==> T() == old(T()).(expires := old(expires) - {e}, state := old(state) - {e}) && Inv(T())
      ensures r != 0 ==> T() == old(T())
    {
      r := -1;
      if state[e] == Inactive {
        expires, state, r := expires - {e}, state - {e}, 0;
      }
    }

    method ReadTimestamp(elapsed: Packed) returns (now: Packed)
      modifies this`stamp
      ensures now == stamp == TimevalAdd(old(stamp), elapsed)
    {
      stamp := TimevalAdd(stamp, elapsed);
      now := stamp;
    }

    /** Walks the queue to the first event due later. */
    method QueueAdd(e: nat)
      requires (forall x :: x in active ==> x in expires) && e in expires
      modifies this`active, this`state
      ensures active == Inserted(old(active), Place(old(active), expires, expires[e]), e)
      ensures state == old(state)[e := Active]
    {
      var i := 0;
      assert active[0..] == active;
      while i < |active|
        invariant i <= |active| && Place(active, expires, expires[e]) == i + Place(active[i..], expires, expires[e])
      {
        if expires[e] < expires[active[i]] { break; }
        assert active[i..][1..] == active[i + 1..];
        i := i + 1;
      }
      active := active[..i] + [e] + active[i..];
      state := state[e := Active];
    }

    method QueueDel(e: nat)
      modifies this`active, this`state
      ensures active == Without(old(active), e) && state == old(state)[e := Inactive]
    {
      active := Delete(active, e);
      state := state[e := Inactive];
    }

    /** Returns whether the deadline is already past, when the hardware is set to fire at once. */
    method ProgramTick(at: Packed, elapsed: Packed) returns (overdue: bool)
      modifies this`stamp, this`expiresNext, this`tick
      ensures T() == Program(old(T()), at, elapsed)
      ensures Normal(at) && at >= 0 && Elapses(old(stamp), elapsed) ==> (overdue <==> Time(at) < Time(stamp))
    {
      ghost var before := stamp;
      var now := ReadTimestamp(elapsed);
      var till := TimevalSub(at, now);
      if Normal(at) && at >= 0 && Elapses(before, elapsed) {
        ClockForward(before, elapsed);
        SecOf(Sec(at) - Sec(now), Nsec(at) - Nsec(now));
        SubExactIff(at, now);
      }
      overdue := Sec(till) < 0 || Nsec(till) < 0;
      expiresNext, tick := at, at;
    }

    method EventStart(e: nat, delay: Packed, elapsed: Packed, elapsed': Packed)
      requires Known(T())
      modifies this
      ensures T() == Start(old(T()), e, delay, elapsed, elapsed') && numEvents == old(numEvents)
    {
      var now := ReadTimestamp(elapsed);
      expires := expires[e := TimevalAdd(now, delay)];
      QueueAdd(e);
      if expiresNext > expires[e] {
        var overdue := ProgramTick(expires[e], elapsed');
      }
    }

    method EventStop(e: nat, elapsed: Packed)
      requires Known(T()) && e in state
      modifies this
      ensures T() == Stop(old(T()), e, elapsed) && numEvents == old(numEvents)
    {
      if state[e] == Active {
        if active != [] && active[0] == e {
          if expires[e] == expiresNext {
            var next := if |active| == 1 then TIMEVAL_MAX else expires[active[1]];
            if next != expiresNext {
              var overdue := ProgramTick(next, elapsed);
            }
          }
        }
        QueueDel(e);
      }
    }

    method RunHandler(e: nat, now: Packed)
      requires active != [] && active[0] == e && e in expires
      modifies this`numEvents, this`active, this`state, this`ran
      ensures active == old(active)[1..] && state == old(state)[e := Inactive] && numEvents == old(numEvents) + 1
      ensures ran == old(ran) + [Run(e, expires[e], now)]
    {
      numEvents := numEvents + 1;
      QueueDel(e);
      ran := ran + [Run(e, expires[e], now)];
    }

    /** Runs every event that is due and programs the hardware for the first that is not. */
    method TimerInterrupt(elapsed: seq<Packed>)
      requires Known(T()) && |elapsed| > |active|
      modifies this
      ensures T() == Interrupt(old(T()), elapsed) && numEvents == old(numEvents) + DueCount(old(T()), elapsed)
    {
      ghost var t := T();
      var k := 0;
      assert elapsed[0..] == elapsed;
      while active != []
        invariant Known(T()) && k <= |elapsed| && |elapsed| - k > |active|
        invariant Interrupt(T(), elapsed[k..]) == Interrupt(t, elapsed)
        invariant numEvents + DueCount(T(), elapsed[k..]) == old(numEvents) + DueCount(t, elapsed)
        decreases |active|
      {
        ghost var u := T();
        assert elapsed[k..][0] == elapsed[k] && elapsed[k..][1] == elapsed[k + 1];
        assert elapsed[k..][1..] == elapsed[k + 1..];
        var e := active[0];
        var now := ReadTimestamp(elapsed[k]);
        var diff := TimevalSub(expires[e], now);
        if Sec(diff) > 0 || (Sec(diff) == 0 && Nsec(diff) > 1000) {
          var next := if expires[e] < TIMEVAL_MAX then expires[e] else TIMEVAL_MAX;
          var overdue := ProgramTick(next, elapsed[k + 1]);
          break;
        }
        state := state[e := Executing];
        RunHandler(e, now);
        assert T() == RunFirst(u, elapsed[k]);
        k := k + 1;
      }
      expiresNext := TIMEVAL_MAX;
    }
  }
}
