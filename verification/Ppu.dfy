/** The picture unit of kernel/src/gameboy/gpu.rs as a state machine: the clock of module `Clock` driving
    the picture of module `Video`, with register writes. Module `Gpu` holds the unit itself. */
module Ppu {
  import opened Common
  import opened Video
  import opened Clock
  import opened Digits

  datatype Picture = Picture(
    wyTrigger: bool, wyPos: int, interrupt: Interrupts, updated: bool, firstFrame: bool, frame: Frame, bgprio: PrioRow)

  // ---- Reacting to the clock ----

  /** `check_interrupt_lyc`. */
  function CheckLyc(c: Config, p: Picture, line: nat): Picture {
    if c.lycInte && line == c.lyc then p.(interrupt := p.interrupt.(stat := true)) else p
  }

  predicate WindowOn(c: Config, p: Picture) {
    c.winOn && p.wyTrigger && c.winx <= 166
  }

  function SetRow(frame: Frame, line: nat, row: Row): Frame {
    if line < SCREEN_H then frame[line := row] else frame
  }

  /** `renderscan`: the window line advances where the window is on, and the row is redrawn. */
  function RenderScan(c: Config, p: Picture, line: nat): Picture {
    if p.firstFrame then p
    else
      var wyPos := if WindowOn(c, p) then p.wyPos + 1 else p.wyPos;
      var winy := if WindowOn(c, p) then wyPos else -1;
      p.(wyPos := wyPos, frame := SetRow(p.frame, line, RenderRow(c, line, winy)), bgprio := BgPrioRow(c, line, winy))
  }

  /** What entering a mode does to the picture. */
  function ModeEffect(c: Config, p: Picture, line: nat, mode: nat): Picture {
    if mode == 0 then RenderScan(c, p, line)
    else if mode == 1 then
      p.(wyTrigger := false, interrupt := p.interrupt.(vblank := true), updated := true, firstFrame := false)
    else if mode == 3 && c.winOn && !p.wyTrigger && line == c.winy then p.(wyTrigger := true, wyPos := -1)
    else p
  }

  predicate StatEnabled(c: Config, mode: nat) {
    (mode == 0 && c.m0Inte) || (mode == 1 && c.m1Inte) || (mode == 2 && c.m2Inte)
  }

  /** `change_mode`. */
  function EnterPicture(c: Config, p: Picture, line: nat, mode: nat): Picture {
    var u := ModeEffect(c, p, line, mode);
    if StatEnabled(c, mode) then u.(interrupt := u.interrupt.(stat := true)) else u
  }

  function React(c: Config, p: Picture, line: nat, e: Event): Picture {
    match e
    case NewLine => CheckLyc(c, p, line)
    case Enter(mode) => EnterPicture(c, p, line, mode)
  }

  function Reaction(c: Config): Act<Picture> {
    (p: Picture, line: nat, e: Event) => React(c, p, line, e)
  }

  /** How the picture reacts, given what VRAM holds. */
  function ReactionWith(c: Config): Vram -> Act<Picture> {
    (vram: Vram) => Reaction(c.(vram := vram))
  }

  // ---- Register writes and runs ----

  datatype Unit = Unit(on: bool, c: Config, s: Scan<Picture>)

  /** `Poke` stands for every other write: scroll, window position, palettes, VRAM, OAM. `Ack` is the memory unit
      taking over the interrupts. */
  datatype Op = Cycle(ticks: nat) | Lcdc(v: byte) | Stat(v: byte) | Lyc(v: byte) | Poke(c: Config) | Ack

  function Acked(s: Scan<Picture>): Scan<Picture> {
    s.(pic := s.pic.(interrupt := NO_INTERRUPT))
  }

  function LcdcConfig(c: Config, v: byte): Config {
    c.(winTilemap := if Bit(v, 6) then 0x9C00 else 0x9800, winOn := Bit(v, 5),
       tilebase := if Bit(v, 4) then 0x8000 else 0x8800, bgTilemap := if Bit(v, 3) then 0x9C00 else 0x9800,
       spriteSize := if Bit(v, 2) then 16 else 8, spriteOn := Bit(v, 1), lcdc0 := Bit(v, 0))
  }

  /** What a read of 0xFF40 gives. */
  function LcdcValue(u: Unit): nat {
    (if u.on then 0x80 else 0) + (if u.c.winTilemap == 0x9C00 then 0x40 else 0) + (if u.c.winOn then 0x20 else 0)
    + (if u.c.tilebase == 0x8000 then 0x10 else 0) + (if u.c.bgTilemap == 0x9C00 then 0x08 else 0)
    + (if u.c.spriteSize == 16 then 0x04 else 0) + (if u.c.spriteOn then 0x02 else 0) + (if u.c.lcdc0 then 0x01 else 0)
  }

  /** What a read of 0xFF41 gives. */
  function StatValue(u: Unit): nat {
    0x80 + (if u.c.lycInte then 0x40 else 0) + (if u.c.m2Inte then 0x20 else 0) + (if u.c.m1Inte then 0x10 else 0)
    + (if u.c.m0Inte then 0x08 else 0) + (if u.s.line == u.c.lyc then 0x04 else 0) + u.s.mode
  }

  function Blank(): Frame {
    seq(SCREEN_H, _ => seq(SCREEN_W, _ => Grey(255, 0)))
  }

  /** Switching the display off parks the clock at the top of the screen and blanks it. */
  function SwitchOff(s: Scan<Picture>): Scan<Picture> {
    s.(modeclock := 0, line := 0, mode := 0,
       pic := s.pic.(wyTrigger := false, firstFrame := true, updated := true, frame := Blank()))
  }

  function WriteLcdc(u: Unit, v: byte): Unit {
    var c, on := LcdcConfig(u.c, v), Bit(v, 7);
    Unit(on, c,
         if u.on && !on then SwitchOff(u.s)
         else if !u.on && on then EnterMode(Reaction(c), u.s, 2).(modeclock := 4)
         else u.s)
  }

  function Step(u: Unit, op: Op): Unit {
    match op
    case Cycle(ticks) => if u.on then u.(s := DoCycle(Reaction(u.c), u.s, ticks)) else u
    case Lcdc(v) => WriteLcdc(u, v)
    case Stat(v) => u.(c := u.c.(lycInte := Bit(v, 6), m2Inte := Bit(v, 5), m1Inte := Bit(v, 4), m0Inte := Bit(v, 3)))
    case Lyc(v) =>
      var c := u.c.(lyc := v);
      u.(c := c, s := u.s.(pic := CheckLyc(c, u.s.pic, u.s.line)))
    case Poke(c) => u.(c := c)
    case Ack => u.(s := Acked(u.s))
  }

  /** The control register reads back what was written. */
  lemma ControlReadsBack(u: Unit, v: byte)
    ensures LcdcValue(Step(u, Lcdc(v))) == v
  {
    ByteDigits(v);
  }

  /** The status register reads back the enable bits written, below a set top bit and above the comparison and the
      mode. */
  lemma StatReadsBack(u: Unit, v: byte)
    requires u.s.mode < 4
    ensures StatValue(Step(u, Stat(v)))
            == 0x80 + v / 8 % 16 * 8 + (if u.s.line == u.c.lyc then 4 else 0) + u.s.mode
  {
    Enables(v);
  }

  lemma Enables(v: byte)
    ensures v / 8 % 16 == 8 * Digit(v, 6) + 4 * Digit(v, 5) + 2 * Digit(v, 4) + Digit(v, 3)
  {
    ByteDigits(v);
    var low := 4 * Digit(v, 2) + 2 * Digit(v, 1) + Digit(v, 0);
    var mid := 8 * Digit(v, 6) + 4 * Digit(v, 5) + 2 * Digit(v, 4) + Digit(v, 3);
    assert v == 128 * Digit(v, 7) + 8 * mid + low;
    Middle(v, Digit(v, 7), mid, low);
  }

  lemma Middle(v: int, high: nat, mid: nat, low: nat)
    requires v == 128 * high + 8 * mid + low && mid < 16 && low < 8
    ensures v / 8 % 16 == mid
  {
    assert v / 8 == 16 * high + mid;
  }

  /** On: the clock runs. Off: it is parked at the top of the screen. */
  predicate UnitInv(u: Unit) {
    if u.on then Running(u.s) else u.s.line == 0 && u.s.modeclock == 0 && u.s.mode == 0
  }

  lemma StepKeeps(u: Unit, op: Op)
    requires UnitInv(u)
    ensures UnitInv(Step(u, op))
  {
    if op.Cycle? && u.on { BatchRuns(Reaction(u.c), u.s, op.ticks); }
  }

  function Run(u: Unit, ops: seq<Op>): Unit
    decreases |ops|
  {
    if ops == [] then u else Run(Step(u, ops[0]), ops[1..])
  }

  lemma {:induction false} RunKeeps(u: Unit, ops: seq<Op>)
    requires UnitInv(u)
    ensures UnitInv(Run(u, ops))
    decreases |ops|
  {
    if ops != [] {
      StepKeeps(u, ops[0]);
      RunKeeps(Step(u, ops[0]), ops[1..]);
    }
  }

  /** A batch of `t` ticks leaves the same clock and picture as `t` single ticks, and moves the clock by `t`. */
  predicate BatchExact(c: Config, s: Scan<Picture>, t: nat) {
    var batch, single := DoCycle(Reaction(c), s, t), Ticks(Reaction(c), s, t);
    && batch.pic == single.pic && batch.mode == single.mode
    && batch.line == single.line && batch.modeclock == single.modeclock
    && Position(batch) == (Position(s) + t) % FRAME_TICKS
  }

  lemma RunningExact(c: Config, s: Scan<Picture>, t: nat)
    requires Running(s)
    ensures BatchExact(c, s, t)
  {
    BatchIsTicks(Reaction(c), s, t);
    BatchRuns(Reaction(c), s, t);
    SameClock(DoCycle(Reaction(c), s, t), Ticks(Reaction(c), s, t));
  }

  /** In every state reachable by cycles and register writes with the display on, the clock is in range,
      the mode is a function of it, and any batch of ticks leaves the same clock and picture as single
      ticks. */
  lemma ReachableExact(u: Unit, ops: seq<Op>, t: nat)
    requires UnitInv(u) && Run(u, ops).on
    ensures Running(Run(u, ops).s) && BatchExact(Run(u, ops).c, Run(u, ops).s, t)
  {
    RunKeeps(u, ops);
    RunningExact(Run(u, ops).c, Run(u, ops).s, t);
  }
}
