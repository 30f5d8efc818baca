/** The memory unit's `do_cycle` (kernel/src/gameboy/mmu.rs) as values, the DMA engine and the picture clock
    taking turns, and how fast an HBlank transfer can go. */
module DmaPace {
  import opened Common
  import opened Clock
  import opened VramDma

  /** The engine, VRAM `V` and the clocked picture `P`; the display is on. */
  datatype Machine<V, P> = Machine(dma: Dma, vram: V, scan: Scan<P>)

  /** How the picture reacts, given what VRAM holds. */
  type View<!V, !P> = V -> Act<P>

  /** `gbspeed`. */
  function Divider(double: bool): (d: nat)
    ensures d > 0
  {
    if double then 2 else 1
  }

  /** The ticks the picture unit is given for a CPU step: `ticks / gbspeed`, plus those of the DMA. */
  function GpuTicks<V, P>(m: Machine<V, P>, copy: Copy<V>, double: bool, ticks: nat): nat {
    ticks / Divider(double) + Perform(m.dma, copy, m.vram, m.scan.hblanking).2
  }

  function MmuCycle<V, P>(m: Machine<V, P>, copy: Copy<V>, view: View<V, P>, double: bool, ticks: nat): Machine<V, P> {
    var (dma, vram, _) := Perform(m.dma, copy, m.vram, m.scan.hblanking);
    Machine(dma, vram, DoCycle(view(vram), m.scan, GpuTicks(m, copy, double, ticks)))
  }

  /** One call of `do_cycle` in a run, and what the CPU left behind before it: the speed, the bank and memory seen
      by the DMA, the engine's registers, VRAM, the picture's registers and its state. Only the clock and its
      flag are beyond the CPU's reach while the display stays on. */
  datatype CpuStep<!V, !P> =
    CpuStep(ticks: nat, double: bool, copy: Copy<V>, view: View<V, P>, dma: Dma, vram: V, pic: P)

  function Written<V, P>(m: Machine<V, P>, st: CpuStep<V, P>): Machine<V, P> {
    Machine(st.dma, st.vram, m.scan.(pic := st.pic))
  }

  /** Whether the call moves a row of an HBlank transfer. */
  predicate RowDue<V, P>(m: Machine<V, P>, st: CpuStep<V, P>) {
    st.dma.status == HDMA && m.scan.hblanking
  }

  function StepTicks<V, P>(m: Machine<V, P>, st: CpuStep<V, P>): nat {
    GpuTicks(Written(m, st), st.copy, st.double, st.ticks)
  }

  function After<V, P>(m: Machine<V, P>, steps: seq<CpuStep<V, P>>): Machine<V, P>
    decreases |steps|
  {
    if steps == [] then m
    else
      var st := steps[|steps| - 1];
      MmuCycle(Written(After(m, steps[..|steps| - 1]), st), st.copy, st.view, st.double, st.ticks)
  }

  /** Rows moved and picture ticks spent by a run of `do_cycle` calls. */
  function RowsMoved<V, P>(m: Machine<V, P>, steps: seq<CpuStep<V, P>>): nat
    decreases |steps|
  {
    if steps == [] then 0
    else
      var init := steps[..|steps| - 1];
      RowsMoved(m, init) + if RowDue(After(m, init), steps[|steps| - 1]) then 1 else 0
  }

  function Spent<V, P>(m: Machine<V, P>, steps: seq<CpuStep<V, P>>): nat
    decreases |steps|
  {
    if steps == [] then 0
    else
      var init := steps[..|steps| - 1];
      Spent(m, init) + StepTicks(After(m, init), steps[|steps| - 1])
  }

  // ---- HBlank entries ----

  /** The positions at which a visible line enters HBlank. */
  predicate EntryPosition(q: nat) {
    q / LINE_TICKS < VISIBLE && q % LINE_TICKS == 253
  }

  /** How many of the `n` positions after `p` are HBlank entries. */
  function Entries(p: nat, n: nat): nat {
    if n == 0 then 0 else Entries(p, n - 1) + if EntryPosition((p + n) % FRAME_TICKS) then 1 else 0
  }

  lemma {:induction false} EntriesAdd(p: nat, m: nat, n: nat)
    ensures Entries(p, m + n) == Entries(p, m) + Entries((p + m) % FRAME_TICKS, n)
  {
    if n > 0 {
      EntriesAdd(p, m, n - 1);
      Round(p, m, n);
    }
  }

  lemma {:induction false} EntryCounts(p: nat, n: nat, i: nat)
    requires 0 < i <= n && EntryPosition((p + i) % FRAME_TICKS)
    ensures Entries(p, n) >= 1
  {
    if i < n {
      EntryCounts(p, n - 1, i);
    }
  }

  lemma {:induction false} EntryWhere(p: nat, n: nat) returns (i: nat)
    requires Entries(p, n) >= 1
    ensures 0 < i <= n && EntryPosition((p + i) % FRAME_TICKS)
  {
    if EntryPosition((p + n) % FRAME_TICKS) { i := n; } else { i := EntryWhere(p, n - 1); }
  }

  lemma EntriesApart(p: nat, i: nat, n: nat)
    requires i < n < i + LINE_TICKS && EntryPosition((p + i) % FRAME_TICKS)
    ensures !EntryPosition((p + n) % FRAME_TICKS)
  {
    InLine(p + i);
    InLine(p + n);
    DivModIs(p + n, (p + i) / LINE_TICKS + (if 253 + n - i < LINE_TICKS then 0 else 1),
             if 253 + n - i < LINE_TICKS then 253 + n - i else 253 + n - i - LINE_TICKS, LINE_TICKS);
  }

  /** The place in the line does not depend on the frame. */
  lemma InLine(x: nat)
    ensures x % FRAME_TICKS % LINE_TICKS == x % LINE_TICKS
  {
    var q, y := x / FRAME_TICKS, x % FRAME_TICKS;
    DivModIs(x, q * 154 + y / LINE_TICKS, y % LINE_TICKS, LINE_TICKS);
  }

  /** HBlank entries are at least a line apart: any 456 consecutive ticks hold at most one. */
  lemma {:induction false} OneEntryPerLine(p: nat, n: nat)
    requires n <= LINE_TICKS
    ensures Entries(p, n) <= 1
  {
    if n > 0 {
      OneEntryPerLine(p, n - 1);
      if Entries(p, n - 1) >= 1 {
        var i := EntryWhere(p, n - 1);
        EntriesApart(p, i, n);
      }
    }
  }

  /** The i-th position after `p` is an entry. */
  predicate Lands(p: nat, i: nat) {
    EntryPosition((p + i) % FRAME_TICKS)
  }

  lemma EntriesIffLands(p: nat, n: nat)
    ensures Entries(p, n) >= 1 <==> exists i :: 0 < i <= n && Lands(p, i)
  {
    if Entries(p, n) >= 1 {
      var i := EntryWhere(p, n);
      assert Lands(p, i);
    }
    if i :| 0 < i <= n && Lands(p, i) {
      EntryCounts(p, n, i);
    }
  }

  /** A batch raises the flag exactly when it passes an HBlank entry. */
  lemma FlagIffEntry<P(!new)>(act: Act<P>, s: Scan<P>, t: nat)
    requires Running(s)
    ensures DoCycle(act, s, t).hblanking <==> Entries(Position(s), t) >= 1
  {
    BatchIsTicks(act, s, t);
    EntriesIffLands(Position(s), t);
    if i :| 0 < i <= t && Ticks(act, s, i).hblanking {
      TickAtEntry(act, s, i);
      assert Lands(Position(s), i);
    } else if i :| 0 < i <= t && Lands(Position(s), i) {
      TickAtEntry(act, s, i);
      assert false;
    }
  }

  lemma TickAtEntry<P>(act: Act<P>, s: Scan<P>, i: nat)
    requires Running(s) && i > 0
    ensures Ticks(act, s, i).hblanking <==> Lands(Position(s), i)
  {
    TicksRun(act, s, i - 1);
    TicksRun(act, s, i);
    var t := Ticks(act, s, i);
    TickEvents(act, Ticks(act, s, i - 1));
    PositionParts(t.line, t.modeclock);
  }

  lemma PositionParts(line: nat, modeclock: nat)
    requires modeclock < LINE_TICKS
    ensures EntryPosition(line * LINE_TICKS + modeclock) <==> line < VISIBLE && modeclock == 253
  {
  }

  // ---- Pace ----

  /** With the display on, a run of `do_cycle` calls of any lengths, with any writes and speed switches between
      them, moves no more rows of HBlank transfers than HBlanks were entered, counting one that was pending at
      the start; a pending one at the end is still unspent. */
  lemma {:induction false} RowsWithinHBlanks<V, P(!new)>(m: Machine<V, P>, steps: seq<CpuStep<V, P>>)
    requires Running(m.scan)
    ensures var r, t := After(m, steps), Spent(m, steps);
            && Running(r.scan) && Position(r.scan) == (Position(m.scan) + t) % FRAME_TICKS
            && RowsMoved(m, steps) + (if r.scan.hblanking then 1 else 0)
               <= Entries(Position(m.scan), t) + (if m.scan.hblanking then 1 else 0)
    decreases |steps|
  {
    if steps != [] {
      var init, st := steps[..|steps| - 1], steps[|steps| - 1];
      RowsWithinHBlanks(m, init);
      var before, after := After(m, init), After(m, steps);
      assert after == MmuCycle(Written(before, st), st.copy, st.view, st.double, st.ticks);
      StepPace(before, st);
      AddPace(Position(m.scan), Spent(m, init), StepTicks(before, st), RowsMoved(m, init), RowDue(before, st),
              m.scan.hblanking, before.scan.hblanking, after.scan.hblanking);
    }
  }

  /** A row moved was pending, and a new one is pending only after another entry. */
  lemma AddPace(p: nat, t: nat, g: nat, rows: nat, due: bool, first: bool, before: bool, now: bool)
    requires rows + (if before then 1 else 0) <= Entries(p, t) + if first then 1 else 0
    requires due ==> before
    requires now <==> Entries((p + t) % FRAME_TICKS, g) >= 1
    ensures rows + (if due then 1 else 0) + (if now then 1 else 0) <= Entries(p, t + g) + if first then 1 else 0
    ensures ((p + t) % FRAME_TICKS + g) % FRAME_TICKS == (p + (t + g)) % FRAME_TICKS
  {
    EntriesAdd(p, t, g);
    Round(p, t, g);
  }

  /** One call advances the clock by its ticks, and raises the flag exactly when it passes an HBlank entry. */
  lemma StepPace<V, P(!new)>(m: Machine<V, P>, st: CpuStep<V, P>)
    requires Running(m.scan)
    ensures var r, g := MmuCycle(Written(m, st), st.copy, st.view, st.double, st.ticks).scan, StepTicks(m, st);
            && Running(r) && Position(r) == (Position(m.scan) + g) % FRAME_TICKS
            && (r.hblanking <==> Entries(Position(m.scan), g) >= 1)
  {
    var w, g := Written(m, st), StepTicks(m, st);
    var act := st.view(Perform(w.dma, st.copy, w.vram, w.scan.hblanking).1);
    FlagIffEntry(act, w.scan, g);
    BatchRuns(act, w.scan, g);
  }

  /** At most one row per line: while the picture unit advances by no more than a line, at most one row moves,
      unless an HBlank was already pending. */
  lemma OneRowPerLine<V, P(!new)>(m: Machine<V, P>, steps: seq<CpuStep<V, P>>)
    requires Running(m.scan) && !m.scan.hblanking && Spent(m, steps) <= LINE_TICKS
    ensures RowsMoved(m, steps) <= 1
  {
    RowsWithinHBlanks(m, steps);
    OneEntryPerLine(Position(m.scan), Spent(m, steps));
  }
}
