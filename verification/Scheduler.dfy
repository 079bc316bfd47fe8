/** The kernel's global task state, updated in place. */
module Scheduler {
  import opened Wrappers
  import opened Seqs
  import opened SchedSpec

  const OTZ_OK: int := 0
  const OTZ_EFAIL: int := -1

  class Global {
    var tasks: seq<nat>
    var ready: seq<nat>
    var current: int
    var state: map<nat, TaskState>
    var next: nat

    /** No tasks; task numbers start at 0x111. */
    constructor ()
      ensures K() == Kernel([], [], 0, map[], 0x111) && Inv(K())
    {
      tasks, ready, current, state, next := [], [], 0, map[], 0x111;
    }

    function K(): Kernel
      reads this
    {
      Kernel(tasks, ready, current, state, next)
    }

    /** The search every operation on a task begins with. */
    method FindTask(x: int) returns (found: Option<nat>)
      ensures found == if x >= 0 && x in tasks then Some(x) else None
    {
      found := None;
      var i := 0;
      while i < |tasks|
        invariant i <= |tasks| && forall k :: 0 <= k < i ==> tasks[k] != x
      {
        if tasks[i] == x {
          return Some(tasks[i]);
        }
        i := i + 1;
      }
    }

    method GetCurrentTask() returns (r: Option<nat>)
      ensures r == Current(K())
    {
      r := FindTask(current);
    }

    method ScheduleTask(x: nat)
      modifies this`ready
      ensures ready == old(ready) + [x]
    {
      ready := ready + [x];
    }

    method ScheduleTaskNext(x: nat)
      requires x in tasks
      modifies this`ready
      ensures K() == QueueNext(old(K()), x)
    {
      ready := [x] + ready;
    }

    method ScheduleTaskId(x: nat)
      modifies this`ready, this`state
      ensures K() == QueueTask(old(K()), x)
    {
      var task := FindTask(x);
      if task.Some? {
        state := state[x := Ready];
        ScheduleTask(x);
      }
    }

    /** `to_` is the state to wait in; suspending the current task leaves no current task. */
    method SuspendTask(x: nat, to_: TaskState)
      modifies this`state, this`current
      ensures K() == SetState(old(K()), x, to_)
    {
      var task := FindTask(x);
      if task.Some? {
        state := state[x := to_];
        if current == x && state[x] == Suspend {
          current := -1;
        }
      }
    }

    method GetNextTask() returns (r: Option<nat>)
      requires Inv(K())
      modifies this`ready
      ensures r == NextTask(old(K())).0 && K() == NextTask(old(K())).1
    {
      var cur := GetCurrentTask();
      if |ready| == 0 {
        if cur.Some? && state[cur.value] != Wait && state[cur.value] != Suspend {
          return cur;
        } else {
          return None;
        }
      }
      r := Some(ready[0]);
      ready := ready[1..];
      var i := 0;
      while i < |ready|
        invariant i <= |ready| && forall k :: 0 <= k < i ==> Some(ready[k]) != cur
      {
        if Some(ready[i]) == cur {
          return;
        }
        i := i + 1;
      }
      if cur.Some? && state[cur.value] != Wait && state[cur.value] != Suspend {
        ScheduleTask(cur.value);
      }
    }

    /** One scheduler call; `off` says that the timer is switched off because there is nothing to run. */
    method Schedule() returns (off: bool)
      requires Inv(K())
      modifies this`ready, this`state, this`current
      ensures K() == SchedSpec.Scheduler(old(K())) && Inv(K())
      ensures off <==> NextTask(old(K())).0 == None
    {
      NextKeeps(K());
      StepKeeps(K(), DoSchedule);
      var cur := GetCurrentTask();
      var next := GetNextTask();
      if cur != next {
        if next.Some? {
          state := state[next.value := Running];
          current := next.value;
        }
      }
      off := next == None;
    }

    /** The task's place in both lists goes; `current` may keep its number. */
    method RemoveTask(x: nat) returns (ret: int)
      modifies this`tasks, this`ready
      ensures K() == DestroyTask(old(K()), x) && (ret == OTZ_OK <==> old(x in tasks))
      ensures (ret != OTZ_OK ==> ret == OTZ_EFAIL)
    {
      var task := FindTask(x);
      if task == None {
        return OTZ_EFAIL;
      }
      tasks := Delete(tasks, x);
      ready := Delete(ready, x);
      ret := OTZ_OK;
    }

    /** `started` is whether the processor context could be set up. */
    method StartTask(x: nat, started: bool) returns (ret: int)
      modifies this`ready
      ensures K() == if started then SchedSpec.StartTask(old(K()), x) else old(K())
      ensures ret == OTZ_OK <==> x in tasks && started
    {
      var task := FindTask(x);
      if task == None || !started {
        return OTZ_EFAIL;
      }
      ScheduleTask(x);
      ret := OTZ_OK;
    }
  }
}
