/** How the tasks of one priority share the processor under timer interrupts alone, for the scheduler of
    kernel/src/sched/mod.rs: ten ticks each, one after the other. */
module Turns {
  import opened Common
  import opened Dispatch
  import opened Fairness

  /** A run of timer interrupts only. */
  ghost predicate TickRun<T>(states: seq<SchedState<T>>, ops: seq<Op<T>>) {
    IsRun(states, ops) && Inv(states[0]) && forall i :: 0 <= i < |ops| ==> ops[i] == Tick
  }

  /** What is left of it after `n` of them. */
  lemma TickRunOn<T>(states: seq<SchedState<T>>, ops: seq<Op<T>>, n: nat)
    requires TickRun(states, ops) && n <= |ops|
    ensures TickRun(states[n..], ops[n..])
  {
    RunKeeps(states, ops, n);
    forall k | 0 <= k < |ops[n..]|
      ensures Follows(states[n..], ops[n..], k)
    {
      assert Follows(states, ops, n + k);
    }
  }

  /** Every task of the ring has ten ticks left. */
  ghost predicate Fresh<T>(s: SchedState<T>, ring: seq<T>) {
    forall i :: 0 <= i < |ring| ==> ring[i] in s.info && s.info[ring[i]].timeSlice == 10
  }

  /** The next task of the ring runs, and the one that ran has ten ticks again; nobody else's time has changed. */
  lemma Refilled<T>(s: SchedState<T>, p: nat, ring: seq<T>, others: seq<seq<T>>)
    requires Serves(s, p, ring, others)
    ensures var e := Schedule(s);
            && e.info.Keys == s.info.Keys && e.info[ring[0]].timeSlice == 10
            && (forall t :: t in s.info ==> e.info[t].cpuTime == s.info[t].cpuTime)
            && (forall t :: t in s.info && t != ring[0] ==> e.info[t].timeSlice == s.info[t].timeSlice)
            && e.switches == s.switches + 1
  {
    ScheduleKeeps(s);
    var u := Requeue(s);
    assert u.queues == others[p := ring[1..] + [ring[0]]];
    assert Top(u.queues, NUM_PRIORITIES) == Some(p);
  }

  /** Ten interrupts are the turn of one task. */
  lemma OneTurn<T>(states: seq<SchedState<T>>, ops: seq<Op<T>>, p: nat, ring: seq<T>, others: seq<seq<T>>)
    requires TickRun(states, ops) && |ops| >= 10 && Serves(states[0], p, ring, others) && Fresh(states[0], ring)
    ensures TurnTaken(states[0], states[10], ring) && Serves(states[10], p, Rotate(ring, 1), others)
  {
    Quantum(states, ops, ring[0], 10);
    TurnOf(states[0], p, ring, others);
  }

  /** The task of the turn has been charged ten ticks and has ten again, and there has been one switch. */
  ghost predicate TurnTaken<T>(s: SchedState<T>, e: SchedState<T>, ring: seq<T>)
    requires ring != []
  {
    && Fresh(e, ring) && e.info.Keys == s.info.Keys && e.switches == s.switches + 1
    && forall t :: t in s.info ==> e.info[t].cpuTime == s.info[t].cpuTime + if t == ring[0] then 10 else 0
  }

  lemma TurnOf<T>(s: SchedState<T>, p: nat, ring: seq<T>, others: seq<seq<T>>)
    requires Serves(s, p, ring, others) && Fresh(s, ring)
    ensures var e := Expired(s, ring[0]);
            TurnTaken(s, e, ring) && Serves(e, p, Rotate(ring, 1), others)
  {
    var c := Charged(s, ring[0], 10);
    assert Serves(c, p, ring, others);
    OneRound(c, p, ring, others);
    Refilled(c, p, ring, others);
  }

  /** How many of the first `m` turns are those of entry `i` of a ring of `n`. */
  function TurnsOf(i: nat, m: nat, n: nat): nat
    requires n > 0
  {
    if m == 0 then 0 else TurnsOf(i, m - 1, n) + if (m - 1) % n == i then 1 else 0
  }

  /** Nothing else is charged, and there has been one switch a turn. */
  ghost predicate Shared<T>(s: SchedState<T>, e: SchedState<T>, ring: seq<T>, m: nat)
    requires ring != []
  {
    && e.info.Keys == s.info.Keys && e.switches == s.switches + m
    && (forall i :: 0 <= i < |ring| && ring[i] in s.info ==>
          e.info[ring[i]].cpuTime == s.info[ring[i]].cpuTime + 10 * TurnsOf(i, m, |ring|))
    && (forall t :: t in s.info && t !in ring ==> e.info[t].cpuTime == s.info[t].cpuTime)
  }

  ghost predicate Distinct<T>(ring: seq<T>) {
    forall i, j :: 0 <= i < j < |ring| ==> ring[i] != ring[j]
  }

  lemma RingDistinct<T>(s: SchedState<T>, p: nat, ring: seq<T>, others: seq<seq<T>>)
    requires Serves(s, p, ring, others)
    ensures Distinct(ring)
  {
    RunningNotQueued(s, ring[0]);
    forall i, j | 0 <= i < j < |ring|
      ensures ring[i] != ring[j]
    {
      assert s.queues[p][j - 1] == ring[j];
      if i > 0 { assert s.queues[p][i - 1] == ring[i]; }
    }
  }

  lemma RingSame<T>(s: SchedState<T>, e: SchedState<T>, ring: seq<T>, j: nat)
    requires j < |ring|
    ensures Fresh(s, ring) <==> Fresh(s, Rotate(ring, j))
    ensures Rotate(ring, j)[0] == ring[j]
  {
    var back := Rotate(ring, j);
    forall i | 0 <= i < |ring|
      ensures ring[i] in back && back[i] in ring
    {
      assert ring[i] == back[if i >= j then i - j else i + |ring| - j];
      assert back[i] == ring[if i + j < |ring| then i + j else i + j - |ring|];
    }
  }

  lemma SharedOn<T>(s: SchedState<T>, u: SchedState<T>, e: SchedState<T>, ring: seq<T>, m: nat)
    requires ring != [] && Distinct(ring) && Shared(s, u, ring, m) && TurnTaken(u, e, Rotate(ring, m % |ring|))
    ensures Shared(s, e, ring, m + 1)
  {
    RingSame(s, e, ring, m % |ring|);
  }

  /** The state in which `m` turns of the ring have been taken since `s`. */
  ghost predicate TurnsTaken<T>(s: SchedState<T>, e: SchedState<T>, p: nat, ring: seq<T>, others: seq<seq<T>>, m: nat)
    requires ring != []
  {
    Serves(e, p, Rotate(ring, m % |ring|), others) && Fresh(e, ring) && Shared(s, e, ring, m)
  }

  lemma TurnOn<T>(s: SchedState<T>, states: seq<SchedState<T>>, ops: seq<Op<T>>, p: nat, ring: seq<T>,
                  others: seq<seq<T>>, m: nat)
    requires TickRun(states, ops) && |ops| >= 10 && ring != [] && Distinct(ring)
    requires TurnsTaken(s, states[0], p, ring, others, m)
    ensures TurnsTaken(s, states[10], p, ring, others, m + 1)
  {
    var j := m % |ring|;
    RingSame(states[0], states[0], ring, j);
    OneTurn(states, ops, p, Rotate(ring, j), others);
    RingSame(states[10], states[0], ring, j);
    SharedOn(s, states[0], states[10], ring, m);
    RotateOnce(ring, m + 1);
  }

  lemma NoTurn<T>(s: SchedState<T>, p: nat, ring: seq<T>, others: seq<seq<T>>)
    requires Serves(s, p, ring, others) && Fresh(s, ring)
    ensures TurnsTaken(s, s, p, ring, others, 0)
  {
    assert Rotate(ring, 0) == ring;
    assert 0 % |ring| == 0;
  }

  lemma {:induction false} AllTurns<T>(states: seq<SchedState<T>>, ops: seq<Op<T>>, p: nat, ring: seq<T>,
                                       others: seq<seq<T>>, m: nat)
    requires TickRun(states, ops) && Serves(states[0], p, ring, others) && Fresh(states[0], ring) && 10 * m <= |ops|
    ensures TurnsTaken(states[0], states[10 * m], p, ring, others, m)
    decreases m
  {
    if m == 0 {
      NoTurn(states[0], p, ring, others);
    } else {
      AllTurns(states, ops, p, ring, others, m - 1);
      NextTurn(states, ops, p, ring, others, m);
    }
  }

  lemma NextTurn<T>(states: seq<SchedState<T>>, ops: seq<Op<T>>, p: nat, ring: seq<T>, others: seq<seq<T>>, m: nat)
    requires TickRun(states, ops) && Serves(states[0], p, ring, others) && 0 < 10 * m <= |ops|
    requires TurnsTaken(states[0], states[10 * (m - 1)], p, ring, others, m - 1)
    ensures TurnsTaken(states[0], states[10 * m], p, ring, others, m)
  {
    var a := 10 * (m - 1);
    TickRunOn(states, ops, a);
    RingDistinct(states[0], p, ring, others);
    assert states[a..][0] == states[a] && states[a..][10] == states[10 * m];
    TurnOn(states[0], states[a..], ops[a..], p, ring, others, m - 1);
  }

  /** Under timer interrupts only, with the current task and the waiting ones of its priority fresh and nothing above:
      after 10 * m interrupts entry m (mod k) of the ring of k runs, with ten ticks left, and each has been charged ten
      ticks for every turn it had. */
  lemma TurnsRotate<T>(states: seq<SchedState<T>>, ops: seq<Op<T>>, p: nat, ring: seq<T>, others: seq<seq<T>>, m: nat)
    requires TickRun(states, ops) && Serves(states[0], p, ring, others) && Fresh(states[0], ring) && 10 * m <= |ops|
    ensures var e := states[10 * m];
            && e.current == Some(ring[m % |ring|])
            && ring[m % |ring|] in e.info && e.info[ring[m % |ring|]].timeSlice == 10
            && e.queues == others[p := Rotate(ring, m % |ring|)[1..]] && Shared(states[0], e, ring, m)
  {
    AllTurns(states, ops, p, ring, others, m);
    RingSame(states[0], states[0], ring, m % |ring|);
  }
}
