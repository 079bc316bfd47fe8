/** The scheduler and the task lists as values: one step, and every run. */
module SchedSpec {
  import opened Wrappers
  import opened Seqs

  datatype TaskState = Suspend | Wait | Ready | Running

  /** The task list, the ready list, the current task's number, which may name no task, each task's
      state and the next number to give. */
  datatype Kernel = Kernel(tasks: seq<nat>, ready: seq<nat>, current: int, state: map<nat, TaskState>, next: nat)

  // ----- the operations

  function Current(s: Kernel): Option<nat> {
    if s.current >= 0 && s.current in s.tasks then Some(s.current) else None
  }

  predicate Runnable(s: Kernel, x: nat) { x in s.state && s.state[x] != Wait && s.state[x] != Suspend }

  predicate CurrentRunnable(s: Kernel) { Current(s).Some? && Runnable(s, Current(s).value) }

  /** The task to run next; the current task goes to the end of the list if it can run on and is not
      in what remains of it. */
  function NextTask(s: Kernel): (r: (Option<nat>, Kernel)) {
    if |s.ready| == 0 then (if CurrentRunnable(s) then Current(s) else None, s)
    else
      var rest := s.ready[1..];
      (Some(s.ready[0]),
       s.(ready := if CurrentRunnable(s) && Current(s).value !in rest then rest + [Current(s).value] else rest))
  }

  function Scheduler(s: Kernel): Kernel {
    var (next, u) := NextTask(s);
    if next.Some? && next != Current(s) then u.(state := u.state[next.value := Running], current := next.value) else u
  }

  function QueueTask(s: Kernel, x: nat): Kernel {
    if x in s.tasks then s.(state := s.state[x := Ready], ready := s.ready + [x]) else s
  }

  /** At the front, to run next. */
  function QueueNext(s: Kernel, x: nat): Kernel {
    if x in s.tasks then s.(ready := [x] + s.ready) else s
  }

  function StartTask(s: Kernel, x: nat): Kernel {
    if x in s.tasks then s.(ready := s.ready + [x]) else s
  }

  function SetState(s: Kernel, x: nat, st: TaskState): Kernel {
    if x !in s.tasks then s
    else s.(state := s.state[x := st], current := if s.current == x && st == Suspend then -1 else s.current)
  }

  function CreateTask(s: Kernel): Kernel {
    s.(tasks := s.tasks + [s.next], state := s.state[s.next := Suspend], next := s.next + 1)
  }

  function DestroyTask(s: Kernel, x: nat): Kernel {
    if x !in s.tasks then s else s.(tasks := Without(s.tasks, x), ready := Without(s.ready, x))
  }

  // ----- runs

  datatype Op =
    | DoSchedule
    | DoQueue(task: nat)
    | DoStart(task: nat)
    | DoNext(task: nat)
    | DoState(task: nat, to_: TaskState)
    | DoCreate
    | DoDestroy(task: nat)

  /** A task is queued only when it is not queued already: its links would be overwritten. */
  predicate Legal(s: Kernel, op: Op) { (op.DoQueue? || op.DoStart? || op.DoNext?) ==> op.task !in s.ready }

  function Apply(s: Kernel, op: Op): Kernel {
    match op
    case DoSchedule => Scheduler(s)
    case DoQueue(x) => QueueTask(s, x)
    case DoStart(x) => StartTask(s, x)
    case DoNext(x) => QueueNext(s, x)
    case DoState(x, st) => SetState(s, x, st)
    case DoCreate => CreateTask(s)
    case DoDestroy(x) => DestroyTask(s, x)
  }

  predicate LegalRun(s: Kernel, ops: seq<Op>)
    decreases |ops|
  {
    |ops| > 0 ==> Legal(s, ops[0]) && LegalRun(Apply(s, ops[0]), ops[1..])
  }

  function Play(s: Kernel, ops: seq<Op>): Kernel
    decreases |ops|
  {
    if |ops| == 0 then s else Play(Apply(s, ops[0]), ops[1..])
  }

  /** What the scheduler calls of a run choose, in order. */
  function Chosen(s: Kernel, ops: seq<Op>): seq<Option<nat>>
    decreases |ops|
  {
    if |ops| == 0 then []
    else (if ops[0].DoSchedule? then [NextTask(s).0] else []) + Chosen(Apply(s, ops[0]), ops[1..])
  }

  /** No task is listed twice and only existing tasks are ready. */
  predicate Inv(s: Kernel) {
    NoRepeats(s.tasks) && NoRepeats(s.ready) && (forall x :: x in s.ready ==> x in s.tasks) &&
    (forall x :: x in s.tasks ==> x in s.state && x < s.next) && s.current < s.next
  }

  lemma NextKeeps(s: Kernel)
    requires Inv(s)
    ensures Inv(NextTask(s).1) && NextTask(s).1.tasks == s.tasks
    ensures (NextTask(s).0.Some? ==> NextTask(s).0.value in s.tasks)
  {
    if s.ready != [] {
      Seqs.Split(s.ready);
      if CurrentRunnable(s) && Current(s).value !in s.ready[1..] { AppendNoRepeats(s.ready[1..], Current(s).value); }
    }
  }

  /** Who is queued after a scheduler call: who stood behind the head, in that order, and then the current task
      if the list was not empty, the task is still listed and neither waits nor is suspended. */
  lemma NextQueues(s: Kernel)
    requires Inv(s)
    ensures var u := NextTask(s).1;
      u == s.(ready := u.ready) && (s.ready == [] ==> u.ready == []) &&
      (s.ready != [] ==> s.ready[1..] <= u.ready && |u.ready| <= |s.ready|) &&
      forall x :: x in u.ready <==>
        s.ready != [] && (x in s.ready[1..] || (s.current == x && x in s.tasks && s.state[x] !in {Wait, Suspend}))
  {
  }

  /** Whom the call chooses: the head of the list; with an empty list the current task, if it can run on. */
  lemma NextChooses(s: Kernel)
    requires Inv(s)
    ensures NextTask(s).0 ==
              if s.ready != [] then Some(s.ready[0])
              else if s.current < 0 || s.current !in s.tasks || s.state[s.current] in {Wait, Suspend} then None
              else Some(s.current)
  {
  }

  /** A whole scheduler call queues the same tasks; the task chosen is current and, if it was not before,
      Running.  With nothing to run nothing changes. */
  lemma ScheduleRuns(s: Kernel)
    requires Inv(s)
    ensures var u, next := Scheduler(s), NextTask(s).0;
      u.ready == NextTask(s).1.ready && u.tasks == s.tasks && u.next == s.next &&
      (next == None ==> u == s) &&
      (next.Some? ==> u.current == next.value && Current(u) == next) &&
      (next.Some? && next != Current(s) ==> u.state == s.state[next.value := Running]) &&
      (next == Current(s) ==> u.state == s.state)
  {
    NextKeeps(s);
  }

  // ----- what the other operations do

  /** Operations on a number without a task do nothing. */
  lemma UnknownTask(s: Kernel, x: nat, st: TaskState)
    requires x !in s.tasks
    ensures QueueTask(s, x) == s && StartTask(s, x) == s && SetState(s, x, st) == s && DestroyTask(s, x) == s
  {
  }

  /** A task that is queued stands last, the others as before; queued for scheduling it is Ready, being started
      it keeps its state. */
  lemma QueuedLast(s: Kernel, x: nat)
    requires x in s.tasks
    ensures var u := QueueTask(s, x);
      |u.ready| == |s.ready| + 1 && u.ready[|s.ready|] == x && u.ready[..|s.ready|] == s.ready &&
      u.state == s.state[x := Ready] && u.tasks == s.tasks && u.current == s.current
    ensures var u := StartTask(s, x);
      |u.ready| == |s.ready| + 1 && u.ready[|s.ready|] == x && u.ready[..|s.ready|] == s.ready &&
      u == s.(ready := u.ready)
  {
  }

  /** A task put at the front is chosen by the next scheduler call, whatever was queued. */
  lemma QueuedNext(s: Kernel, x: nat)
    requires x in s.tasks
    ensures var u := QueueNext(s, x);
      NextTask(u).0 == Some(x) && u.ready[1..] == s.ready && u == s.(ready := u.ready)
  {
  }

  /** A state change reaches one task; suspending the current one leaves none current. */
  lemma StateSet(s: Kernel, x: nat, st: TaskState)
    requires Inv(s) && x in s.tasks
    ensures var u := SetState(s, x, st);
      u.state.Keys == s.state.Keys && u.state[x] == st &&
      (forall y :: y in s.state && y != x ==> u.state[y] == s.state[y]) &&
      u.tasks == s.tasks && u.ready == s.ready &&
      Current(u) == if st == Suspend && Current(s) == Some(x) then None else Current(s)
  {
  }

  /** A new task has a number no task had, is last in the task list, suspended and not queued. */
  lemma CreatedLast(s: Kernel)
    requires Inv(s)
    ensures var u := CreateTask(s);
      s.next !in s.tasks && u.tasks == s.tasks + [s.next] && u.state[s.next] == Suspend && u.next > s.next &&
      u.ready == s.ready && s.next !in u.ready && Current(u) == Current(s) &&
      forall y :: y in s.tasks ==> u.state[y] == s.state[y]
  {
  }

  /** A destroyed task is gone from both lists, the others are not; if it was current no task is. */
  lemma DestroyedGone(s: Kernel, x: nat)
    requires Inv(s)
    ensures var u := DestroyTask(s, x);
      (forall y :: y in u.tasks <==> y in s.tasks && y != x) &&
      (forall y :: y in u.ready <==> y in s.ready && y != x) &&
      u.state == s.state && u.next == s.next && Current(u) == if Current(s) == Some(x) then None else Current(s)
  {
    WithoutKeeps(s.tasks, x);
    WithoutKeeps(s.ready, x);
  }

  lemma StepKeeps(s: Kernel, op: Op)
    requires Inv(s) && Legal(s, op)
    ensures Inv(Apply(s, op))
  {
    match op
    case DoSchedule => NextKeeps(s);
    case DoQueue(x) => AppendNoRepeats(s.ready, x);
    case DoStart(x) => AppendNoRepeats(s.ready, x);
    case DoNext(x) =>
    case DoState(x, st) =>
    case DoCreate => AppendNoRepeats(s.tasks, s.next);
    case DoDestroy(x) =>
      WithoutKeeps(s.tasks, x);
      WithoutKeeps(s.ready, x);
  }

  lemma {:induction false} EveryRun(s: Kernel, ops: seq<Op>)
    requires Inv(s) && LegalRun(s, ops)
    ensures Inv(Play(s, ops))
    decreases |ops|
  {
    if |ops| > 0 {
      StepKeeps(s, ops[0]);
      EveryRun(Apply(s, ops[0]), ops[1..]);
    }
  }

  // ----- turns

  /** No task is put at the front, and none is destroyed. */
  predicate TailOnly(ops: seq<Op>) { forall i :: 0 <= i < |ops| ==> !ops[i].DoDestroy? && !ops[i].DoNext? }

  /** The next calls choose the ready list as it is now, in order, whatever is queued meanwhile and
      whichever tasks block: the task at place `k` is chosen by the call number `k + 1`. */
  lemma {:induction false} TurnOf(s: Kernel, ops: seq<Op>, k: nat)
    requires LegalRun(s, ops) && TailOnly(ops) && k < |s.ready| && k < |Chosen(s, ops)|
    ensures Chosen(s, ops)[k] == Some(s.ready[k])
    decreases |ops|
  {
    var op, u := ops[0], Apply(s, ops[0]);
    if op.DoSchedule? {
      if k > 0 {
        assert u.ready[k - 1] == s.ready[k];
        TurnOf(u, ops[1..], k - 1);
      }
    } else {
      assert u.ready[k] == s.ready[k];
      TurnOf(u, ops[1..], k);
    }
  }

  /** And by no earlier one. */
  lemma NotBefore(s: Kernel, ops: seq<Op>, j: nat, k: nat)
    requires Inv(s) && LegalRun(s, ops) && TailOnly(ops) && j < k < |s.ready| && k < |Chosen(s, ops)|
    ensures Chosen(s, ops)[j] != Some(s.ready[k])
  {
    TurnOf(s, ops, j);
  }

  /** With tasks destroyed meanwhile the turn can only come earlier. */
  lemma {:induction false} TurnByThen(s: Kernel, ops: seq<Op>, k: nat) returns (i: nat)
    requires LegalRun(s, ops) && k < |s.ready| && k < |Chosen(s, ops)|
    requires forall i :: 0 <= i < |ops| ==> ops[i] != DoDestroy(s.ready[k]) && !ops[i].DoNext?
    ensures i <= k && Chosen(s, ops)[i] == Some(s.ready[k])
    decreases |ops|
  {
    var op, u, x := ops[0], Apply(s, ops[0]), s.ready[k];
    if op.DoSchedule? {
      i := 0;
      if k > 0 {
        assert u.ready[k - 1] == x;
        i := TurnByThen(u, ops[1..], k - 1);
        i := i + 1;
      }
    } else {
      var j := k;
      if op.DoDestroy? && op.task in s.tasks { j := Seqs.WithoutPlace(s.ready, op.task, k); }
      assert u.ready[j] == x;
      i := TurnByThen(u, ops[1..], j);
    }
  }

  // ----- no runnable task is lost

  /** The task will run: it is queued, or it is the current task and not blocked. */
  predicate Live(s: Kernel, x: nat) { x in s.ready || (Current(s) == Some(x) && Runnable(s, x)) }

  /** One scheduler call loses a task exactly when it is queued first, current and blocked at once. */
  lemma ScheduleLive(s: Kernel, x: nat)
    requires Inv(s) && Live(s, x)
    ensures Live(Scheduler(s), x) <==> !(s.ready != [] && s.ready[0] == x && Current(s) == Some(x) && !Runnable(s, x))
    ensures Live(Scheduler(s), x) || NextTask(s).0 == Some(x)
  {
    NextKeeps(s);
    if s.ready != [] { Seqs.Split(s.ready); }
  }

  /** A task that is not blocked while it is current stays in play through every run that neither
      blocks nor destroys it. */
  lemma {:induction false} NeverLost(s: Kernel, ops: seq<Op>, x: nat)
    requires Inv(s) && LegalRun(s, ops) && Live(s, x) && (Current(s) == Some(x) ==> Runnable(s, x))
    requires forall i :: 0 <= i < |ops| ==> ops[i] != DoDestroy(x) && !(ops[i].DoState? && ops[i].task == x)
    ensures Live(Play(s, ops), x)
    decreases |ops|
  {
    if |ops| > 0 {
      StepKeeps(s, ops[0]);
      StepLive(s, ops[0], x);
      NeverLost(Apply(s, ops[0]), ops[1..], x);
    }
  }

  lemma StepLive(s: Kernel, op: Op, x: nat)
    requires Inv(s) && Legal(s, op) && Live(s, x) && (Current(s) == Some(x) ==> Runnable(s, x))
    requires op != DoDestroy(x) && !(op.DoState? && op.task == x)
    ensures Live(Apply(s, op), x) && (Current(Apply(s, op)) == Some(x) ==> Runnable(Apply(s, op), x))
  {
    if op.DoSchedule? {
      NextKeeps(s);
      ScheduleLive(s, x);
    } else if op.DoDestroy? {
      WithoutKeeps(s.tasks, op.task);
      WithoutKeeps(s.ready, op.task);
    }
  }

  /** How far one step moves a queued task up. */
  lemma StepMoves(s: Kernel, op: Op, k: nat)
    requires Legal(s, op) && !op.DoDestroy? && !op.DoNext? && k < |s.ready| && (op.DoSchedule? ==> k > 0)
    ensures var j := if op.DoSchedule? then k - 1 else k;
      j < |Apply(s, op).ready| && Apply(s, op).ready[j] == s.ready[k]
  {
  }

  /** Where a queued task stands after `c` scheduler calls. */
  lemma {:induction false} MovedUp(s: Kernel, ops: seq<Op>, k: nat, c: nat)
    requires LegalRun(s, ops) && TailOnly(ops) && |Chosen(s, ops)| == c <= k < |s.ready|
    ensures k - c < |Play(s, ops).ready| && Play(s, ops).ready[k - c] == s.ready[k]
    decreases |ops|
  {
    if |ops| > 0 {
      StepMoves(s, ops[0], k);
      if ops[0].DoSchedule? {
        MovedUp(Apply(s, ops[0]), ops[1..], k - 1, c - 1);
      } else {
        MovedUp(Apply(s, ops[0]), ops[1..], k, c);
      }
    }
  }

  /** Blocking a queued task does not keep it from its turn: whatever state it is put into before call
      number `k + 1`, that call runs it, unless it is the current task already. */
  lemma BlockedIsRun(s: Kernel, ops: seq<Op>, k: nat, st: TaskState)
    requires Inv(s) && LegalRun(s, ops) && TailOnly(ops) && |Chosen(s, ops)| == k < |s.ready|
    ensures var x := s.ready[k];
      var u := SetState(Play(s, ops), x, st);
      NextTask(u).0 == Some(x) &&
      (Current(u) != Some(x) ==> Scheduler(u).current == x && Runnable(Scheduler(u), x))
  {
    EveryRun(s, ops);
    MovedUp(s, ops, k, k);
    var u := SetState(Play(s, ops), s.ready[k], st);
    StepKeeps(Play(s, ops), DoState(s.ready[k], st));
    NextKeeps(u);
  }
}
