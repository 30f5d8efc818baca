/** What the scheduler of kernel/src/sched/mod.rs does to its run queues and tasks, over any type `T` of
    task references, and what follows for every run. Module `Sched` holds the scheduler itself. */
module Dispatch {
  import opened Common

  const NUM_PRIORITIES := 5
  const TIME_SLICE := 10

  datatype TaskState = Ready | Running | Blocked | Zombie

  datatype Task = Task(pid: nat, state: TaskState, priority: nat, timeSlice: nat, cpuTime: nat)

  datatype SchedState<T> = SchedState(
    queues: seq<seq<T>>,   // one run queue per priority, longest waiter first
    current: Option<T>,
    idle: Option<T>,
    info: map<T, Task>,    // every task there is
    readyCount: nat,
    switches: nat)

  function Total<T>(queues: seq<seq<T>>): nat
    requires |queues| == NUM_PRIORITIES
  {
    |queues[0]| + |queues[1]| + |queues[2]| + |queues[3]| + |queues[4]|
  }

  ghost predicate Counted<T>(s: SchedState<T>) {
    |s.queues| == NUM_PRIORITIES && s.readyCount == Total(s.queues)
  }

  /** All references are to known tasks, and the count is the sum of the queue lengths. */
  ghost predicate Shaped<T>(s: SchedState<T>) {
    && Counted(s)
    && (forall t :: t in s.info ==> s.info[t].priority < NUM_PRIORITIES)
    && (forall p, i :: 0 <= p < NUM_PRIORITIES && 0 <= i < |s.queues[p]| ==> s.queues[p][i] in s.info)
    && (s.current.Some? ==> s.current.value in s.info)
    && (s.idle.Some? ==> s.idle.value in s.info)
  }

  ghost predicate Queued<T>(s: SchedState<T>, t: T) {
    exists p :: 0 <= p < |s.queues| && t in s.queues[p]
  }

  // ---- What the operations do ----

  ghost function Enqueue<T>(s: SchedState<T>, t: T): SchedState<T>
    requires t in s.info && s.info[t].priority < |s.queues|
  {
    var p := s.info[t].priority;
    s.(queues := s.queues[p := s.queues[p] + [t]], readyCount := s.readyCount + 1)
  }

  /** The highest nonempty queue below `n`. */
  ghost function Top<T>(queues: seq<seq<T>>, n: nat): (r: Option<nat>)
    requires n <= |queues|
    ensures r.Some? ==> r.value < n && queues[r.value] != []
    ensures forall p :: (if r.Some? then r.value + 1 else 0) <= p < n ==> queues[p] == []
  {
    if n == 0 then None
    else if queues[n - 1] != [] then Some(n - 1)
    else Top(queues, n - 1)
  }

  ghost function PickNext<T>(s: SchedState<T>): (SchedState<T>, Option<T>)
    requires Counted(s)
  {
    match Top(s.queues, NUM_PRIORITIES)
    case None => (s, s.idle)
    case Some(p) =>
      (s.(queues := s.queues[p := s.queues[p][1..]], readyCount := s.readyCount - 1), Some(s.queues[p][0]))
  }

  ghost function SetTask<T>(s: SchedState<T>, t: T, task: Task): SchedState<T> {
    s.(info := s.info[t := task])
  }

  /** The first half of `schedule`: a Running current task goes back to its queue with a full slice. */
  ghost function Requeue<T>(s: SchedState<T>): SchedState<T>
    requires Shaped(s)
  {
    if s.current.Some? && s.info[s.current.value].state == Running then
      var t := s.current.value;
      Enqueue(SetTask(s, t, s.info[t].(state := Ready, timeSlice := TIME_SLICE)), t)
    else s
  }

  /** The second half: the next task runs. */
  ghost function Switch<T>(s: SchedState<T>): SchedState<T>
    requires Shaped(s)
  {
    var (u, r) := PickNext(s);
    Run(u, r)
  }

  /** The chosen task, if any, becomes the current one. */
  ghost function Run<T>(s: SchedState<T>, r: Option<T>): SchedState<T>
    requires r.Some? ==> r.value in s.info
  {
    if r.None? then s
    else SetTask(s, r.value, s.info[r.value].(state := Running)).(current := r, switches := s.switches + 1)
  }

  ghost function Schedule<T>(s: SchedState<T>): SchedState<T>
    requires Shaped(s)
  {
    Switch(Requeue(s))
  }

  /** `Scheduler::timer_tick`: charges the current task and says whether its slice is used up. */
  ghost function TimerTick<T>(s: SchedState<T>): (SchedState<T>, bool)
    requires s.current.Some? ==> s.current.value in s.info
  {
    if s.current.None? then (s, false)
    else
      var t := s.current.value;
      var task := s.info[t];
      var left := if task.timeSlice > 0 then task.timeSlice - 1 else 0;
      (SetTask(s, t, task.(cpuTime := task.cpuTime + 1, timeSlice := left)), left == 0)
  }

  /** The timer interrupt: `timer_tick`, then `schedule` when the slice is used up. */
  ghost function Interrupt<T>(s: SchedState<T>): SchedState<T>
    requires Shaped(s)
  {
    var (u, expired) := TimerTick(s);
    if expired then Schedule(u) else u
  }

  // ---- The invariant ----

  /** Every queued task is Ready and sits once, in the queue of its priority; only the current task can
      be Running. */
  ghost predicate Inv<T>(s: SchedState<T>) {
    && Shaped(s)
    && (forall p, i :: 0 <= p < NUM_PRIORITIES && 0 <= i < |s.queues[p]| ==>
          s.info[s.queues[p][i]].priority == p && s.info[s.queues[p][i]].state == Ready)
    && (forall p, i, j :: 0 <= p < NUM_PRIORITIES && 0 <= i < j < |s.queues[p]| ==>
          s.queues[p][i] != s.queues[p][j])
    && (forall t :: t in s.info && s.info[t].state == Running ==> s.current == Some(t))
  }

  lemma RunningNotQueued<T>(s: SchedState<T>, t: T)
    requires Inv(s) && t in s.info && s.info[t].state == Running
    ensures !Queued(s, t) && s.current == Some(t)
  {
  }

  lemma EnqueueKeeps<T>(s: SchedState<T>, t: T)
    requires Inv(s) && t in s.info && s.info[t].state == Ready && !Queued(s, t)
    ensures Inv(Enqueue(s, t))
  {
  }

  lemma RequeueKeeps<T>(s: SchedState<T>)
    requires Inv(s)
    ensures Inv(Requeue(s))
    ensures forall t :: t in Requeue(s).info ==> Requeue(s).info[t].state != Running
  {
  }

  lemma SwitchKeeps<T>(s: SchedState<T>)
    requires Inv(s) && forall t :: t in s.info ==> s.info[t].state != Running
    ensures Inv(Switch(s))
  {
    var (u, r) := PickNext(s);
    if r.Some? {
      assert forall p, i :: 0 <= p < NUM_PRIORITIES && 0 <= i < |u.queues[p]| ==> u.queues[p][i] != r.value;
    }
  }

  lemma ScheduleKeeps<T>(s: SchedState<T>)
    requires Inv(s)
    ensures Inv(Schedule(s))
  {
    RequeueKeeps(s);
    SwitchKeeps(Requeue(s));
  }

  lemma TickKeeps<T>(s: SchedState<T>)
    requires Inv(s)
    ensures Inv(TimerTick(s).0)
  {
  }

  // ---- Runs ----

  datatype Op<T> =
    | EnqueueTask(t: T)        // of a Ready, unqueued task
    | Stop(exit: bool)         // the Running current task blocks or exits
    | Wake(t: T)               // a Blocked task becomes Ready
    | Reschedule
    | Tick

  ghost predicate Enabled<T>(s: SchedState<T>, op: Op<T>) {
    match op
    case EnqueueTask(t) => t in s.info && s.info[t].state == Ready && !Queued(s, t)
    case Stop(_) => s.current.Some? && s.current.value in s.info && s.info[s.current.value].state == Running
    case Wake(t) => t in s.info && s.info[t].state == Blocked
    case Reschedule => true
    case Tick => true
  }

  ghost function Step<T>(s: SchedState<T>, op: Op<T>): SchedState<T>
    requires Shaped(s) && Enabled(s, op)
  {
    match op
    case EnqueueTask(t) => Enqueue(s, t)
    case Stop(exit) =>
      var t := s.current.value;
      SetTask(s, t, s.info[t].(state := if exit then Zombie else Blocked))
    case Wake(t) => SetTask(s, t, s.info[t].(state := Ready))
    case Reschedule => Schedule(s)
    case Tick => Interrupt(s)
  }

  /** State `k + 1` follows from state `k` by an enabled operation. */
  ghost predicate Follows<T>(states: seq<SchedState<T>>, ops: seq<Op<T>>, k: nat)
    requires k < |ops| == |states| - 1
  {
    Shaped(states[k]) && Enabled(states[k], ops[k]) && states[k + 1] == Step(states[k], ops[k])
  }

  /** `states` is a run: each state follows from the one before. */
  ghost predicate IsRun<T>(states: seq<SchedState<T>>, ops: seq<Op<T>>) {
    |states| == |ops| + 1 && forall k :: 0 <= k < |ops| ==> Follows(states, ops, k)
  }

  lemma StepKeeps<T>(s: SchedState<T>, op: Op<T>)
    requires Inv(s) && Enabled(s, op)
    ensures Inv(Step(s, op))
  {
    match op
    case EnqueueTask(t) => EnqueueKeeps(s, t);
    case Stop(_) => RunningNotQueued(s, s.current.value);
                    assert forall p, i :: 0 <= p < NUM_PRIORITIES && 0 <= i < |s.queues[p]| ==>
                             s.queues[p][i] != s.current.value;
    case Wake(_) =>
    case Reschedule => ScheduleKeeps(s);
    case Tick =>
      TickKeeps(s);
      ScheduleKeeps(TimerTick(s).0);
  }

  /** In every state of every run the count is exact, each task is queued at most once and only where its
      priority says, and a Running task is the current one and in no queue. */
  lemma {:induction false} RunKeeps<T>(states: seq<SchedState<T>>, ops: seq<Op<T>>, k: nat)
    requires IsRun(states, ops) && Inv(states[0]) && k < |states|
    ensures Inv(states[k]) && states[k].readyCount == Total(states[k].queues)
    ensures forall t :: t in states[k].info && states[k].info[t].state == Running ==>
              states[k].current == Some(t) && !Queued(states[k], t)
  {
    if k > 0 {
      RunKeeps(states, ops, k - 1);
      assert Follows(states, ops, k - 1);
      StepKeeps(states[k - 1], ops[k - 1]);
    }
    forall t | t in states[k].info && states[k].info[t].state == Running
      ensures states[k].current == Some(t) && !Queued(states[k], t)
    {
      RunningNotQueued(states[k], t);
    }
  }
}
