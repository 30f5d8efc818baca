/** One `do_cycle` of the memory unit of kernel/src/gameboy/mmu.rs as values: the DMA first, then the timer, the
    keypad, the picture unit and the serial port, which hand over their interrupts. Module `Mmu` holds the unit
    itself. */
module Bus {
  import opened Common
  import opened Video
  import opened Ppu
  import opened VramDma
  import opened DmaPace
  import Batch
  import PictureRuns
  import Clock
  import Serial
  import Timer

  /** `keypad` holds the interrupts that the keypad has pending. */
  datatype State = State(m: Machine<Vram, Picture>, timer: Timer.TimerState, keypad: Interrupts,
                         serial: Serial.PortState, intf: Interrupts)

  /** What stays as it is during the call. */
  datatype Setup = Setup(on: bool, regs: Config, copy: Copy<Vram>, double: bool)

  /** The first half of the call: the DMA, the timer and the keypad. Also the ticks given to the picture unit. */
  function DmaTurn(b: State, c: Setup, ticks: nat): (State, nat) {
    var (dma, vram, vramticks) := Perform(b.m.dma, c.copy, b.m.vram, b.m.scan.hblanking);
    (KeypadTurn(TimerTurn(b.(m := b.m.(dma := dma, vram := vram)), ticks + vramticks * Divider(c.double))),
     ticks / Divider(c.double) + vramticks)
  }

  function TimerTurn(b: State, cputicks: nat): State {
    var t := Timer.Advance(b.timer, cputicks);
    b.(timer := t.(interrupt := NO_INTERRUPT), intf := Both(b.intf, t.interrupt))
  }

  function KeypadTurn(b: State): State {
    b.(keypad := NO_INTERRUPT, intf := Both(b.intf, b.keypad))
  }

  /** The second half: the serial port, and before it the picture unit, which stands still with the display off. */
  function GpuTurn(b: State, c: Setup, gputicks: nat): State {
    var s := if c.on then Clock.DoCycle(ReactionWith(c.regs)(b.m.vram), b.m.scan, gputicks) else b.m.scan;
    b.(m := b.m.(scan := Acked(s)), intf := Both(b.intf, s.pic.interrupt))
  }

  function SerialTurn(b: State, gputicks: nat): State {
    var s := Serial.Advance(b.serial, gputicks);
    b.(serial := s.(interrupt := NO_INTERRUPT), intf := Both(b.intf, s.interrupt))
  }

  function DoCycle(b: State, c: Setup, ticks: nat): (State, nat) {
    var (u, gputicks) := DmaTurn(b, c, ticks);
    (SerialTurn(GpuTurn(u, c, gputicks), gputicks), gputicks)
  }

  /** With the display on, DMA and picture move as in `DmaPace`, before the interrupts are handed over. */
  lemma PacedAsInDmaPace(b: State, c: Setup, ticks: nat)
    requires c.on
    ensures var m := MmuCycle(b.m, c.copy, ReactionWith(c.regs), c.double, ticks);
            && DoCycle(b, c, ticks).0.m == m.(scan := Acked(m.scan))
            && DoCycle(b, c, ticks).1 == GpuTicks(b.m, c.copy, c.double, ticks)
  {
  }

  // ---- No request is lost ----

  /** Every interrupt of `b` is one of `a`. */
  predicate Covers(a: Interrupts, b: Interrupts) {
    Both(a, b) == a
  }

  /** A reaction drops no request. */
  ghost predicate Rising(act: Clock.Act<Picture>) {
    forall p, line, e :: Covers(act(p, line, e).interrupt, p.interrupt)
  }

  lemma ReactCovers(c: Config, p: Picture, line: nat, e: Clock.Event)
    ensures Covers(React(c, p, line, e).interrupt, p.interrupt)
  {
    match e
    case NewLine => PictureRuns.NewLineFlags(c, p, line);
    case Enter(mode) => PictureRuns.EnterFlags(c, p, line, mode);
  }

  lemma ReactionRises(c: Config)
    ensures Rising(Reaction(c))
  {
    forall p: Picture, line: nat, e: Clock.Event
      ensures Covers(Reaction(c)(p, line, e).interrupt, p.interrupt)
    {
      ReactCovers(c, p, line, e);
    }
  }

  lemma SettleCovers(act: Clock.Act<Picture>, s: Clock.Scan<Picture>)
    requires Rising(act)
    ensures Covers(Clock.Settle(act, s).pic.interrupt, s.pic.interrupt)
  {
    var t := if s.modeclock >= Clock.LINE_TICKS then Clock.NextLine(act, s) else s;
    assert Covers(t.pic.interrupt, s.pic.interrupt);
    assert Covers(Clock.FollowClock(act, t).pic.interrupt, t.pic.interrupt);
  }

  lemma {:induction false} StridesCover(step: (Clock.Scan<Picture>, nat) -> Clock.Scan<Picture>,
                                        s: Clock.Scan<Picture>, ticks: nat)
    requires forall s, n :: Covers(step(s, n).pic.interrupt, s.pic.interrupt)
    ensures Covers(Batch.Strides(step, s, ticks).pic.interrupt, s.pic.interrupt)
    decreases ticks
  {
    if ticks > 0 {
      var n := if ticks >= Batch.STRIDE then Batch.STRIDE else ticks;
      StridesCover(step, step(s, n), ticks - n);
    }
  }

  lemma PictureCovers(act: Clock.Act<Picture>, s: Clock.Scan<Picture>, ticks: nat)
    requires Rising(act)
    ensures Covers(Clock.DoCycle(act, s, ticks).pic.interrupt, s.pic.interrupt)
  {
    forall s: Clock.Scan<Picture>, n: nat
      ensures Covers(Clock.Stepper(act)(s, n).pic.interrupt, s.pic.interrupt)
    {
      SettleCovers(act, s.(modeclock := s.modeclock + n));
    }
    StridesCover(Clock.Stepper(act), s.(hblanking := false), ticks);
  }

  lemma GpuCovers(b: State, c: Setup, gputicks: nat)
    ensures Covers(GpuTurn(b, c, gputicks).intf, b.intf)
    ensures Covers(GpuTurn(b, c, gputicks).intf, b.m.scan.pic.interrupt)
  {
    ReactionRises(c.regs.(vram := b.m.vram));
    PictureCovers(ReactionWith(c.regs)(b.m.vram), b.m.scan, gputicks);
  }

  /** Whatever was requested before the call, or pending in any of the units, is requested after it, and the units
      have nothing pending any more. */
  lemma RequestsKept(b: State, c: Setup, ticks: nat)
    ensures var u := DoCycle(b, c, ticks).0;
            && Covers(u.intf, b.intf) && Covers(u.intf, b.timer.interrupt) && Covers(u.intf, b.keypad)
            && Covers(u.intf, b.m.scan.pic.interrupt) && Covers(u.intf, b.serial.interrupt)
            && u.timer.interrupt == u.keypad == u.m.scan.pic.interrupt == u.serial.interrupt == NO_INTERRUPT
  {
    var (d, gputicks) := DmaTurn(b, c, ticks);
    GpuCovers(d, c, gputicks);
  }

  // ---- Time ----

  /** The rows that the DMA moves in the call. */
  function RowsDue(b: State): nat {
    match b.m.dma.status
    case NoDMA => 0
    case GDMA => b.m.dma.len + 1
    case HDMA => if b.m.scan.hblanking then 1 else 0
  }

  lemma {:induction false} RowsSource<V>(d: Dma, copy: Copy<V>, vram: V, n: nat)
    ensures Rows(d, copy, vram, n).0.src == (d.src + 16 * n) % 0x1_0000
  {
    if n > 0 { RowsSource(d, copy, vram, n - 1); }
  }

  lemma DmaTime(b: State, c: Setup, ticks: nat)
    ensures var (u, gputicks), speed := DmaTurn(b, c, ticks), if c.double then 2 else 1;
            && u.m.scan == b.m.scan && u.serial == b.serial
            && u.timer.div == (b.timer.div + ticks + 8 * RowsDue(b) * speed) % 0x1_0000
            && gputicks == ticks / speed + 8 * RowsDue(b)
            && u.m.dma.src == (b.m.dma.src + 16 * RowsDue(b)) % 0x1_0000
  {
    RowsSource(b.m.dma, c.copy, b.m.vram, b.m.dma.len + 1);
    var vramticks := Perform(b.m.dma, c.copy, b.m.vram, b.m.scan.hblanking).2;
    assert vramticks == 8 * RowsDue(b);
    Timer.PlusIs(b.timer.div, ticks + vramticks * Divider(c.double));
  }

  /** At either speed the timer sees every processor tick and the picture unit every one or every second; a row of the
      DMA takes 8 ticks of the picture unit, and as many more of the timer at double speed. */
  lemma TimeKept(b: State, c: Setup, ticks: nat)
    requires c.on && Clock.Running(b.m.scan)
    ensures var (u, gputicks), speed := DoCycle(b, c, ticks), if c.double then 2 else 1;
            && gputicks == ticks / speed + 8 * RowsDue(b)
            && u.timer.div == (b.timer.div + ticks + 8 * RowsDue(b) * speed) % 0x1_0000
            && Clock.Position(u.m.scan) == (Clock.Position(b.m.scan) + gputicks) % 70224
            && (b.serial.transferring && gputicks < b.serial.cycles ==> u.serial.cycles == b.serial.cycles - gputicks)
            && u.m.dma.src == (b.m.dma.src + 16 * RowsDue(b)) % 0x1_0000
  {
    DmaTime(b, c, ticks);
    var (d, gputicks) := DmaTurn(b, c, ticks);
    Clock.BatchRuns(ReactionWith(c.regs)(d.m.vram), d.m.scan, gputicks);
  }

  /** What was requested before the call, or pending somewhere. */
  function AllPending(b: State): Interrupts {
    Both(Both(Both(b.intf, b.timer.interrupt), Both(b.keypad, b.serial.interrupt)), b.m.scan.pic.interrupt)
  }

  /** The timer ticks of the call. */
  function TimerTicks(b: State, c: Setup, ticks: nat): nat {
    ticks + 8 * RowsDue(b) * if c.double then 2 else 1
  }

  /** The timer's bound on a batch. */
  predicate TimerExact(b: State, c: Setup, ticks: nat) {
    Bit(b.timer.tac, 2) ==> TimerTicks(b, c, ticks) <= Timer.Period(b.timer.tac) / 2
  }

  predicate TimerOverflows(b: State, c: Setup, ticks: nat) {
    Bit(b.timer.tac, 2) && Timer.Passed(b.timer.div, b.timer.tac, TimerTicks(b, c, ticks)) >= 0x100 - b.timer.tima
  }

  lemma DmaRequests(b: State, c: Setup, ticks: nat)
    requires TimerExact(b, c, ticks)
    ensures var u, was := DmaTurn(b, c, ticks).0, Both(Both(b.intf, b.timer.interrupt), b.keypad);
            u.intf == was.(timer := was.timer || TimerOverflows(b, c, ticks))
  {
    assert Perform(b.m.dma, c.copy, b.m.vram, b.m.scan.hblanking).2 == 8 * RowsDue(b);
    Timer.OverflowRequests(b.timer, TimerTicks(b, c, ticks));
  }

  lemma GpuRequests(b: State, c: Setup, n: nat)
    requires c.on && Clock.Running(b.m.scan)
    ensures var regs, was := c.regs.(vram := b.m.vram), Both(b.intf, b.m.scan.pic.interrupt);
            GpuTurn(b, c, n).intf
            == was.(vblank := was.vblank || Clock.VBlanks(Reaction(regs), b.m.scan, n) > 0,
                    stat := was.stat || PictureRuns.StatWithin(regs, Reaction(regs), b.m.scan, n))
    ensures GpuTurn(b, c, n).serial == b.serial && GpuTurn(b, c, n).m.vram == b.m.vram
  {
    PictureRuns.CycleRequests(c.regs.(vram := b.m.vram), b.m.scan, n);
  }

  /** With the display on, a call adds a VBlank request exactly when VBlank is entered, a STAT request exactly when one
      is due, a serial request exactly when a transfer ends, and, within the timer's bound, a timer request exactly
      when the count overflows. */
  lemma RequestsExact(b: State, c: Setup, ticks: nat)
    requires c.on && Clock.Running(b.m.scan)
    ensures var (u, gputicks) := DoCycle(b, c, ticks);
            var regs := c.regs.(vram := u.m.vram);
            var act := Reaction(regs);
            && (u.intf.vblank <==> AllPending(b).vblank || Clock.VBlanks(act, b.m.scan, gputicks) > 0)
            && (u.intf.stat <==> AllPending(b).stat || PictureRuns.StatWithin(regs, act, b.m.scan, gputicks))
            && (u.intf.serial <==> AllPending(b).serial || (b.serial.transferring && gputicks >= b.serial.cycles))
            && (u.intf.keypad <==> AllPending(b).keypad)
            && (TimerExact(b, c, ticks) ==> (u.intf.timer <==> AllPending(b).timer || TimerOverflows(b, c, ticks)))
  {
    var (d, gputicks) := DmaTurn(b, c, ticks);
    GpuRequests(d, c, gputicks);
    if TimerExact(b, c, ticks) { DmaRequests(b, c, ticks); }
    OtherRequests(b, c, ticks);
    SerialRequests(GpuTurn(d, c, gputicks), gputicks);
  }

  lemma SerialRequests(b: State, n: nat)
    ensures var was := Both(b.intf, b.serial.interrupt);
            SerialTurn(b, n).intf == was.(serial := was.serial || (b.serial.transferring && n >= b.serial.cycles))
    ensures SerialTurn(b, n).m == b.m
  {
  }

  lemma OtherRequests(b: State, c: Setup, ticks: nat)
    ensures var d := DmaTurn(b, c, ticks).0;
            && d.m.scan == b.m.scan && d.serial == b.serial
            && d.intf == Both(Both(b.intf, b.timer.interrupt), b.keypad).(timer := d.intf.timer)
  {
  }
}
