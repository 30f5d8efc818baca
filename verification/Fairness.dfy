/** Who runs next and for how long: order of arrival within a priority, round robin, and time slices, for
    the scheduler of kernel/src/sched/mod.rs as described in `Dispatch`. */
module Fairness {
  import opened Common
  import opened Dispatch

  // ---- First come, first served within a priority ----

  /** A state with the moment each task last joined a run queue. */
  datatype Timed<T> = Timed(s: SchedState<T>, joined: map<T, nat>, clock: nat)

  /** The task that `op` puts into a run queue. */
  ghost function Joins<T>(s: SchedState<T>, op: Op<T>): Option<T>
    requires Shaped(s)
  {
    match op
    case EnqueueTask(t) => Some(t)
    case Reschedule => if s.current.Some? && s.info[s.current.value].state == Running then s.current else None
    case Tick =>
      if TimerTick(s).1 && s.info[s.current.value].state == Running then s.current else None
    case _ => None
  }

  ghost function TimedStep<T>(x: Timed<T>, op: Op<T>): Timed<T>
    requires Shaped(x.s) && Enabled(x.s, op)
  {
    var j := Joins(x.s, op);
    Timed(Step(x.s, op), if j.Some? then x.joined[j.value := x.clock] else x.joined, x.clock + 1)
  }

  /** Each queue is in order of joining. */
  ghost predicate InOrder<T>(queues: seq<seq<T>>, joined: map<T, nat>, clock: nat) {
    && (forall p, i :: 0 <= p < |queues| && 0 <= i < |queues[p]| ==>
          queues[p][i] in joined && joined[queues[p][i]] < clock)
    && (forall p, i, j :: 0 <= p < |queues| && 0 <= i < j < |queues[p]| ==>
          joined[queues[p][i]] < joined[queues[p][j]])
  }

  lemma AppendInOrder<T>(s: SchedState<T>, joined: map<T, nat>, clock: nat, t: T)
    requires Inv(s) && t in s.info && !Queued(s, t) && InOrder(s.queues, joined, clock)
    ensures InOrder(Enqueue(s, t).queues, joined[t := clock], clock + 1)
  {
  }

  lemma SwitchInOrder<T>(s: SchedState<T>, joined: map<T, nat>, clock: nat)
    requires Inv(s) && InOrder(s.queues, joined, clock)
    ensures InOrder(Switch(s).queues, joined, clock)
  {
  }

  lemma TimedStepInOrder<T>(x: Timed<T>, op: Op<T>)
    requires Inv(x.s) && Enabled(x.s, op) && InOrder(x.s.queues, x.joined, x.clock)
    ensures Inv(TimedStep(x, op).s)
    ensures InOrder(TimedStep(x, op).s.queues, TimedStep(x, op).joined, TimedStep(x, op).clock)
  {
    StepKeeps(x.s, op);
    match op
    case EnqueueTask(t) => AppendInOrder(x.s, x.joined, x.clock, t);
    case Stop(_) =>
    case Wake(_) =>
    case Reschedule => ScheduleInOrder(x.s, x.joined, x.clock);
    case Tick => TickInOrder(x);
  }

  lemma TickInOrder<T>(x: Timed<T>)
    requires Inv(x.s) && InOrder(x.s.queues, x.joined, x.clock)
    ensures InOrder(TimedStep(x, Tick).s.queues, TimedStep(x, Tick).joined, TimedStep(x, Tick).clock)
  {
    TickKeeps(x.s);
    if TimerTick(x.s).1 { ScheduleInOrder(TimerTick(x.s).0, x.joined, x.clock); }
  }

  lemma ScheduleInOrder<T>(s: SchedState<T>, joined: map<T, nat>, clock: nat)
    requires Inv(s) && InOrder(s.queues, joined, clock)
    ensures var j := Joins(s, Reschedule);
            InOrder(Schedule(s).queues, if j.Some? then joined[j.value := clock] else joined, clock + 1)
  {
    RequeueKeeps(s);
    var j := Joins(s, Reschedule);
    if j.Some? {
      var t := j.value;
      RunningNotQueued(s, t);
      var u := SetTask(s, t, s.info[t].(state := Ready, timeSlice := TIME_SLICE));
      assert Inv(u);
      AppendInOrder(u, joined, clock, t);
      SwitchInOrder(Requeue(s), joined[t := clock], clock + 1);
    } else {
      SwitchInOrder(s, joined, clock + 1);
    }
  }

  /** `pick_next` takes the task that has waited longest among those of the highest waiting priority, and
      falls back to the idle task exactly when nothing waits. */
  ghost predicate TakesLongestWaiter<T>(s: SchedState<T>, joined: map<T, nat>)
    requires Shaped(s)
  {
    && (forall t :: t in s.info && Queued(s, t) ==> t in joined)
    && (if AllEmpty(s) then PickNext(s) == (s, s.idle)
        else
          && PickNext(s).1.Some? && PickNext(s).1.value in s.info && Queued(s, PickNext(s).1.value)
          && forall u :: u in s.info && Queued(s, u) ==>
               var t := PickNext(s).1.value;
               && s.info[u].priority <= s.info[t].priority
               && (u != t && s.info[u].priority == s.info[t].priority ==> joined[t] < joined[u]))
  }

  ghost predicate AllEmpty<T>(s: SchedState<T>) {
    forall p :: 0 <= p < |s.queues| ==> s.queues[p] == []
  }

  lemma PicksLongestWaiter<T>(s: SchedState<T>, joined: map<T, nat>, clock: nat)
    requires Inv(s) && InOrder(s.queues, joined, clock)
    ensures TakesLongestWaiter(s, joined)
  {
    var top := Top(s.queues, NUM_PRIORITIES);
    if top.Some? {
      var t := s.queues[top.value][0];
      assert Queued(s, t);
      forall u | u in s.info && Queued(s, u)
        ensures s.info[u].priority <= s.info[t].priority
        ensures u != t && s.info[u].priority == s.info[t].priority ==> joined[t] < joined[u]
      {
        var p :| 0 <= p < |s.queues| && u in s.queues[p];
        var i :| 0 <= i < |s.queues[p]| && s.queues[p][i] == u;
      }
    }
  }

  /** A run, with the moments of joining kept along: `pasts[k]` is the state after `k` operations. It starts with
      nothing queued. */
  ghost predicate IsTimedRun<T>(pasts: seq<Timed<T>>, ops: seq<Op<T>>) {
    && |pasts| == |ops| + 1
    && Inv(pasts[0].s) && AllEmpty(pasts[0].s) && pasts[0].joined == map[] && pasts[0].clock == 0
    && forall k :: 0 <= k < |ops| ==> TimedFollows(pasts, ops, k)
  }

  ghost predicate TimedFollows<T>(pasts: seq<Timed<T>>, ops: seq<Op<T>>, k: nat)
    requires k < |ops| == |pasts| - 1
  {
    Shaped(pasts[k].s) && Enabled(pasts[k].s, ops[k]) && pasts[k + 1] == TimedStep(pasts[k], ops[k])
  }

  lemma {:induction false} RunInOrder<T>(pasts: seq<Timed<T>>, ops: seq<Op<T>>, k: nat)
    requires IsTimedRun(pasts, ops) && k < |pasts|
    ensures Inv(pasts[k].s) && InOrder(pasts[k].s.queues, pasts[k].joined, pasts[k].clock) && pasts[k].clock == k
  {
    if k > 0 {
      RunInOrder(pasts, ops, k - 1);
      assert TimedFollows(pasts, ops, k - 1);
      TimedStepInOrder(pasts[k - 1], ops[k - 1]);
    }
  }

  /** Operation `i` is the last before moment `k` that put `t` into a run queue. */
  ghost predicate LastJoined<T>(pasts: seq<Timed<T>>, ops: seq<Op<T>>, k: nat, t: T, i: nat)
    requires k < |pasts| == |ops| + 1
    requires forall j :: 0 <= j < k ==> Shaped(pasts[j].s)
  {
    i < k && Joins(pasts[i].s, ops[i]) == Some(t) && forall j :: i < j < k ==> Joins(pasts[j].s, ops[j]) != Some(t)
  }

  lemma {:induction false} JoinedIsLast<T>(pasts: seq<Timed<T>>, ops: seq<Op<T>>, k: nat, t: T)
    requires IsTimedRun(pasts, ops) && k < |pasts| && t in pasts[k].joined
    ensures forall j :: 0 <= j < k ==> Shaped(pasts[j].s)
    ensures LastJoined(pasts, ops, k, t, pasts[k].joined[t])
  {
    forall j | 0 <= j < k
      ensures Shaped(pasts[j].s)
    {
      assert TimedFollows(pasts, ops, j);
    }
    RunInOrder(pasts, ops, k - 1);
    assert TimedFollows(pasts, ops, k - 1);
    if Joins(pasts[k - 1].s, ops[k - 1]) != Some(t) {
      JoinedIsLast(pasts, ops, k - 1, t);
    }
  }

  /** In every state of every run that starts with nothing queued, `pick_next` takes the longest waiter of the
      highest waiting priority, where a task waits since the last operation that queued it. */
  lemma RunPicksLongestWaiter<T>(pasts: seq<Timed<T>>, ops: seq<Op<T>>, k: nat)
    requires IsTimedRun(pasts, ops) && k < |pasts|
    ensures Inv(pasts[k].s) && TakesLongestWaiter(pasts[k].s, pasts[k].joined)
    ensures forall j :: 0 <= j < k ==> Shaped(pasts[j].s)
    ensures forall t :: Queued(pasts[k].s, t) ==> LastJoined(pasts, ops, k, t, pasts[k].joined[t])
  {
    forall j | 0 <= j < k
      ensures Shaped(pasts[j].s)
    {
      assert TimedFollows(pasts, ops, j);
    }
    RunInOrder(pasts, ops, k);
    PicksLongestWaiter(pasts[k].s, pasts[k].joined, pasts[k].clock);
    forall t | Queued(pasts[k].s, t)
      ensures LastJoined(pasts, ops, k, t, pasts[k].joined[t])
    {
      JoinedIsLast(pasts, ops, k, t);
    }
  }

  // ---- Round robin ----

  ghost function Rounds<T>(s: SchedState<T>, n: nat): (r: SchedState<T>)
    requires Inv(s)
    ensures Inv(r)
  {
    if n == 0 then s
    else
      var prev := Rounds(s, n - 1);
      ScheduleKeeps(prev);
      Schedule(prev)
  }

  function Rotate<T>(ring: seq<T>, i: nat): seq<T>
    requires i <= |ring|
  {
    ring[i..] + ring[..i]
  }

  /** The current task `ring[0]` is Running at priority `p`, the rest of the ring waits there, and nothing
      waits above. */
  ghost predicate Serves<T>(s: SchedState<T>, p: nat, ring: seq<T>, others: seq<seq<T>>) {
    && Inv(s) && |others| == NUM_PRIORITIES && p < NUM_PRIORITIES && ring != []
    && s.current == Some(ring[0]) && s.info[ring[0]].state == Running && s.info[ring[0]].priority == p
    && s.queues == others[p := ring[1..]]
    && forall h :: p < h < NUM_PRIORITIES ==> others[h] == []
  }

  lemma OneRound<T>(s: SchedState<T>, p: nat, ring: seq<T>, others: seq<seq<T>>)
    requires Serves(s, p, ring, others)
    ensures Serves(Schedule(s), p, Rotate(ring, 1), others)
  {
    ScheduleKeeps(s);
    var back := ring[1..] + [ring[0]];
    var u := Requeue(s);
    assert u.queues == others[p := back];
    assert Top(u.queues, NUM_PRIORITIES) == Some(p);
    assert Rotate(ring, 1) == back;
    assert Schedule(s).queues == others[p := back[1..]];
  }

  /** Bounded waiting, for every number of rounds: with current task c and queue q1..qk at its priority,
      nothing above, nothing arriving or blocking, the i-th `schedule` runs entry i (mod k+1) of the ring
      c, q1, .., qk and leaves the rest of the ring waiting in order. */
  lemma {:induction false} RoundRobin<T>(s: SchedState<T>, p: nat, ring: seq<T>, others: seq<seq<T>>, i: nat)
    requires Serves(s, p, ring, others)
    ensures Serves(Rounds(s, i), p, Rotate(ring, i % |ring|), others)
    ensures Rounds(s, i).current == Some(ring[i % |ring|])
  {
    if i == 0 {
      assert Rotate(ring, 0) == ring;
    } else {
      RoundRobin(s, p, ring, others, i - 1);
      var j := (i - 1) % |ring|;
      OneRound(Rounds(s, i - 1), p, Rotate(ring, j), others);
      RotateOnce(ring, i);
    }
  }

  lemma RotateOnce<T>(ring: seq<T>, i: nat)
    requires ring != [] && i > 0
    ensures Rotate(Rotate(ring, (i - 1) % |ring|), 1) == Rotate(ring, i % |ring|)
    ensures Rotate(ring, i % |ring|)[0] == ring[i % |ring|]
  {
    var n, j := |ring|, (i - 1) % |ring|;
    ModSuccessor(i - 1, n);
    if j == n - 1 {
      assert Rotate(Rotate(ring, j), 1) == ring == Rotate(ring, 0);
    } else {
      assert Rotate(Rotate(ring, j), 1) == Rotate(ring, j + 1);
    }
  }

  /** A whole turn of the ring: each waiting task ran once, in order, and the current task and every queue
      are back as they were. */
  lemma FullTurn<T>(s: SchedState<T>, p: nat, ring: seq<T>, others: seq<seq<T>>)
    requires Serves(s, p, ring, others)
    ensures forall i :: 0 <= i < |ring| ==> Rounds(s, i).current == Some(ring[i])
    ensures Rounds(s, |ring|).current == s.current && Rounds(s, |ring|).queues == s.queues
  {
    forall i | 0 <= i < |ring|
      ensures Rounds(s, i).current == Some(ring[i])
    {
      RoundRobin(s, p, ring, others, i);
      DivModIs(i, 0, i, |ring|);
    }
    RoundRobin(s, p, ring, others, |ring|);
    DivModIs(|ring|, 1, 0, |ring|);
    assert Rotate(ring, 0) == ring;
  }

  // ---- Time slices ----

  /** The state in which `t` has been charged `k` ticks. */
  ghost function Charged<T>(s: SchedState<T>, t: T, k: nat): (r: SchedState<T>)
    requires Inv(s) && t in s.info && k <= s.info[t].timeSlice
    ensures Inv(r)
  {
    SetTask(s, t, s.info[t].(timeSlice := s.info[t].timeSlice - k, cpuTime := s.info[t].cpuTime + k))
  }

  ghost function Expired<T>(s: SchedState<T>, t: T): (r: SchedState<T>)
    requires Inv(s) && t in s.info
  {
    Schedule(Charged(s, t, s.info[t].timeSlice))
  }

  lemma TickFollows<T>(states: seq<SchedState<T>>, ops: seq<Op<T>>, k: nat)
    requires IsRun(states, ops) && k < |ops| && ops[k] == Tick
    ensures Shaped(states[k]) && states[k + 1] == Interrupt(states[k])
  {
    assert Follows(states, ops, k);
  }

  /** In a run of timer interrupts only, a current task with n ticks left keeps the processor, charged for
      each tick, through the first n-1, and the n-th reschedules. */
  lemma {:induction false} Quantum<T>(states: seq<SchedState<T>>, ops: seq<Op<T>>, t: T, k: nat)
    requires IsRun(states, ops) && Inv(states[0]) && forall i :: 0 <= i < |ops| ==> ops[i] == Tick
    requires states[0].current == Some(t) && 1 <= states[0].info[t].timeSlice
    requires k <= |ops| && k <= states[0].info[t].timeSlice
    ensures states[k] == if k < states[0].info[t].timeSlice then Charged(states[0], t, k) else Expired(states[0], t)
  {
    if k == 0 {
      NothingCharged(states[0], t);
    } else {
      Quantum(states, ops, t, k - 1);
      TickFollows(states, ops, k - 1);
      OneInterrupt(states[0], t, k - 1);
    }
  }

  /** A current task with no ticks left, as a blocked one may be that nobody can replace, is charged and gives way at
      every interrupt; without a current task an interrupt does nothing. */
  lemma SpentTicks<T>(s: SchedState<T>)
    requires Inv(s)
    ensures s.current == None ==> Interrupt(s) == s
    ensures s.current.Some? && s.info[s.current.value].timeSlice == 0 ==>
              var t := s.current.value;
              Inv(SetTask(s, t, s.info[t].(cpuTime := s.info[t].cpuTime + 1)))
              && Interrupt(s) == Schedule(SetTask(s, t, s.info[t].(cpuTime := s.info[t].cpuTime + 1)))
  {
  }

  lemma NothingCharged<T>(s: SchedState<T>, t: T)
    requires Inv(s) && t in s.info
    ensures Charged(s, t, 0) == s
  {
  }

  lemma OneInterrupt<T>(s: SchedState<T>, t: T, k: nat)
    requires Inv(s) && s.current == Some(t) && k < s.info[t].timeSlice
    ensures Interrupt(Charged(s, t, k)) == if k + 1 < s.info[t].timeSlice then Charged(s, t, k + 1) else Expired(s, t)
  {
    OneTick(s, t, k);
  }

  lemma OneTick<T>(s: SchedState<T>, t: T, k: nat)
    requires Inv(s) && s.current == Some(t) && k < s.info[t].timeSlice
    ensures TimerTick(Charged(s, t, k)) == (Charged(s, t, k + 1), k + 1 == s.info[t].timeSlice)
  {
    assert TimerTick(Charged(s, t, k)).0.info == Charged(s, t, k + 1).info;
  }
}
