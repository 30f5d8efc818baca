/** The scheduler of kernel/src/sched/mod.rs on intrusive run queues, proved against `Dispatch`. */
module Sched {
  import opened Common
  import opened Intrusive
  import opened RunQueues
  import opened Dispatch

  ghost function Ref<T>(n: Node?<T>): Option<Node<T>> {
    if n == null then None else Some(n)
  }

  class Scheduler {
    const runQueues: QueueArray<Task>
    var current: Node?<Task>
    var idleTask: Node?<Task>
    var readyCount: nat
    var contextSwitches: nat
    ghost var state: SchedState<Node<Task>>  // the abstract value

    /** The run queues, tasks and counters spell out `state`. */
    ghost predicate Shows()
      reads this, runQueues, runQueues.lists, state.info.Keys
    {
      && state.info.Keys == runQueues.pool
      && runQueues.Valid() && runQueues.queues == state.queues
      && (forall t :: t in state.info ==> t.data == state.info[t])
      && state.current == Ref(current) && state.idle == Ref(idleTask)
      && state.readyCount == readyCount && state.switches == contextSwitches
    }

    constructor ()
      ensures Shows() && Inv(state) && fresh(runQueues) && fresh(runQueues.lists)
      ensures state == SchedState(seq(NUM_PRIORITIES, _ => []), None, None, map[], 0, 0)
    {
      runQueues := new QueueArray(NUM_PRIORITIES);
      current, idleTask, readyCount, contextSwitches := null, null, 0, 0;
      state := SchedState(seq(NUM_PRIORITIES, _ => []), None, None, map[], 0, 0);
    }

    /** A new, unqueued task becomes known. */
    ghost method Admit(task: Node<Task>)
      requires Shows() && Inv(state) && task !in state.info
      requires task.data.state == Ready && task.data.priority < NUM_PRIORITIES
      modifies `state, runQueues`pool
      ensures Shows() && Inv(state) && state == old(state).(info := old(state).info[task := task.data])
    {
      runQueues.Admit(task);
      state := state.(info := state.info[task := task.data]);
      assert state.info.Keys == runQueues.pool;
    }

    method SetIdle(task: Node<Task>)
      requires Shows() && Inv(state) && task in state.info
      modifies `state, `idleTask
      ensures Shows() && Inv(state) && state == old(state).(idle := Some(task))
    {
      idleTask := task;
      state := state.(idle := Some(task));
    }

    method Enqueue(task: Node<Task>)
      requires Shows() && task in state.info && task.data.priority < |state.queues|
      requires forall p :: 0 <= p < |state.queues| ==> task !in state.queues[p]
      modifies `state, `readyCount, runQueues, runQueues.lists, state.info.Keys`next, state.info.Keys`prev
      ensures Shows() && state == Dispatch.Enqueue(old(state), task)
    {
      runQueues.Enqueue(task.data.priority, task);
      readyCount := readyCount + 1;
      state := state.(queues := runQueues.queues, readyCount := readyCount);
    }

    /** `self.run_queues[priority].dequeue()`. */
    method Dequeue(priority: nat) returns (r: Option<Node<Task>>)
      requires Shows() && priority < |state.queues|
      modifies `state, runQueues, runQueues.lists, state.info.Keys`next, state.info.Keys`prev
      ensures Shows()
      ensures var q := old(state.queues)[priority];
              if q == [] then r == None && state == old(state)
              else r == Some(q[0]) && state == old(state).(queues := old(state.queues)[priority := q[1..]])
    {
      r := runQueues.Dequeue(priority);
      state := state.(queues := runQueues.queues);
    }

    method CountDown()
      requires Shows() && readyCount > 0
      modifies `state, `readyCount
      ensures Shows() && state == old(state).(readyCount := old(readyCount) - 1)
    {
      readyCount := readyCount - 1;
      state := state.(readyCount := readyCount);
    }

    method PickNext() returns (r: Node?<Task>)
      requires Shows() && Counted(state)
      modifies `state, `readyCount, runQueues, runQueues.lists, state.info.Keys`next, state.info.Keys`prev
      ensures Shows() && (state, Ref(r)) == Dispatch.PickNext(old(state))
    {
      var priority := NUM_PRIORITIES;
      while priority > 0
        invariant 0 <= priority <= NUM_PRIORITIES && Shows() && state == old(state) && readyCount == old(readyCount)
        invariant Top(state.queues, NUM_PRIORITIES) == Top(state.queues, priority)
      {
        priority := priority - 1;
        var task := Dequeue(priority);
        if task.Some? {
          CountDown();
          return task.value;
        }
      }
      r := idleTask;
    }

    /** Overwrites the scheduling fields of one task. */
    method SetTask(t: Node<Task>, task: Task)
      requires Shows() && t in state.info
      modifies `state, t`data
      ensures Shows() && state == Dispatch.SetTask(old(state), t, task)
    {
      t.data := task;
      state := Dispatch.SetTask(state, t, task);
    }

    method TimerTick() returns (expired: bool)
      requires Shows() && (current != null ==> current in state.info)
      modifies `state, state.info.Keys`data
      ensures Shows() && (state, expired) == Dispatch.TimerTick(old(state))
    {
      if current != null {
        var task := current.data;
        task := task.(cpuTime := task.cpuTime + 1);
        if task.timeSlice > 0 {
          task := task.(timeSlice := task.timeSlice - 1);
        }
        SetTask(current, task);
        if task.timeSlice == 0 {
          return true;
        }
      }
      expired := false;
    }

    /** First half of `schedule`: a Running current task is made Ready and queued again. */
    method RequeueCurrent()
      requires Shows() && Inv(state)
      modifies this, runQueues, runQueues.lists, state.info.Keys
      ensures Shows() && state == Requeue(old(state))
    {
      if current != null && current.data.state == Running {
        RunningNotQueued(state, current);
        SetTask(current, current.data.(state := Ready, timeSlice := TIME_SLICE));
        assert forall p :: 0 <= p < |state.queues| ==> current !in state.queues[p];
        Enqueue(current);
      }
    }

    /** The chosen task becomes current; the assembly context switch is this change. */
    method SwitchTo(next: Node<Task>)
      requires Shows() && next in state.info
      modifies this, next`data
      ensures Shows()
      ensures state == Dispatch.SetTask(old(state), next, old(state).info[next].(state := Running))
                         .(current := Some(next), switches := old(state).switches + 1)
    {
      SetTask(next, next.data.(state := Running));
      current := next;
      contextSwitches := contextSwitches + 1;
      state := state.(current := Some(next), switches := contextSwitches);
    }

    /** Second half of `schedule`: the next task runs. */
    method SwitchNext()
      requires Shows() && Shaped(state)
      modifies this, runQueues, runQueues.lists, state.info.Keys
      ensures Shows() && state == Switch(old(state))
    {
      ghost var was := state;
      var next := PickNext();
      assert Switch(was) == Run(state, Ref(next));
      if next != null {
        SwitchTo(next);
      }
    }

    /** The free function `schedule`. */
    method Schedule()
      requires Shows() && Inv(state)
      modifies this, runQueues, runQueues.lists, state.info.Keys
      ensures Shows() && Inv(state) && state == Dispatch.Schedule(old(state))
    {
      ScheduleKeeps(state);
      RequeueKeeps(state);
      RequeueCurrent();
      SwitchNext();
    }

    /** The timer interrupt. */
    method OnTimer()
      requires Shows() && Inv(state)
      modifies this, runQueues, runQueues.lists, state.info.Keys
      ensures Shows() && Inv(state) && state == Interrupt(old(state))
    {
      TickKeeps(state);
      var expired := TimerTick();
      if expired {
        Schedule();
      }
    }
  }
}
