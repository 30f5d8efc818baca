/** The clock of the picture unit (kernel/src/gameboy/gpu.rs, `do_cycle`), for any picture `P`.

    The clock advances in strides of up to 80 ticks and tells the picture, through `act`, when a line
    begins and when a mode is entered. Nothing here depends on what the picture does then. */
module Clock {
  import opened Batch

  const LINE_TICKS := 456
  const LINES := 154
  const VISIBLE := 144
  const FRAME_TICKS := 70224

  datatype Event = NewLine | Enter(mode: nat)

  datatype Scan<P> = Scan(mode: nat, modeclock: nat, line: nat, hblanking: bool, pic: P)

  /** What the picture becomes on an event of a line. */
  type Act<!P> = (P, nat, Event) -> P

  // ---- What do_cycle does ----

  function EnterMode<P>(act: Act<P>, s: Scan<P>, mode: nat): Scan<P> {
    s.(mode := mode, hblanking := s.hblanking || mode == 0, pic := act(s.pic, s.line, Enter(mode)))
  }

  /** The next line begins. */
  function BeginLine<P>(act: Act<P>, s: Scan<P>): Scan<P>
    requires s.modeclock >= LINE_TICKS
  {
    var line := (s.line + 1) % LINES;
    s.(modeclock := s.modeclock - LINE_TICKS, line := line, pic := act(s.pic, line, NewLine))
  }

  /** The clock has run past the end of the line. */
  function NextLine<P>(act: Act<P>, s: Scan<P>): Scan<P>
    requires s.modeclock >= LINE_TICKS
  {
    var t := BeginLine(act, s);
    if t.line >= VISIBLE && t.mode != 1 then EnterMode(act, t, 1) else t
  }

  /** On a visible line the mode follows the clock. */
  function FollowClock<P>(act: Act<P>, s: Scan<P>): Scan<P> {
    if s.modeclock <= 80 then (if s.mode != 2 then EnterMode(act, s, 2) else s)
    else if s.modeclock <= 252 then (if s.mode != 3 then EnterMode(act, s, 3) else s)
    else (if s.mode != 0 then EnterMode(act, s, 0) else s)
  }

  /** One turn of the loop, after the clock has been advanced. */
  function Settle<P>(act: Act<P>, s: Scan<P>): Scan<P> {
    var s := if s.modeclock >= LINE_TICKS then NextLine(act, s) else s;
    if s.line < VISIBLE then FollowClock(act, s) else s
  }

  function Stride<P>(act: Act<P>, s: Scan<P>, n: nat): Scan<P> {
    Settle(act, s.(modeclock := s.modeclock + n))
  }

  function Stepper<P>(act: Act<P>): (Scan<P>, nat) -> Scan<P> {
    (s: Scan<P>, n: nat) => Stride(act, s, n)
  }

  /** `do_cycle` with the display on. */
  function DoCycle<P>(act: Act<P>, s: Scan<P>, ticks: nat): Scan<P> {
    Strides(Stepper(act), s.(hblanking := false), ticks)
  }

  /** `n` calls of `do_cycle` with one tick each. */
  function Ticks<P>(act: Act<P>, s: Scan<P>, n: nat): Scan<P>
    decreases n
  {
    if n == 0 then s else DoCycle(act, Ticks(act, s, n - 1), 1)
  }

  // ---- The clock invariant ----

  function ModeAt(line: nat, modeclock: nat): nat {
    if line >= VISIBLE then 1 else if modeclock <= 80 then 2 else if modeclock <= 252 then 3 else 0
  }

  /** Display on: the clock is in range and the mode is determined by line and clock. */
  predicate Running<P>(s: Scan<P>) {
    s.modeclock < LINE_TICKS && s.line < LINES && s.mode == ModeAt(s.line, s.modeclock)
  }

  function Position<P>(s: Scan<P>): nat {
    s.line * LINE_TICKS + s.modeclock
  }

  lemma StrideRuns<P>(act: Act<P>, s: Scan<P>, n: nat)
    requires Running(s) && n <= 80
    ensures Running(Stride(act, s, n)) && Position(Stride(act, s, n)) == (Position(s) + n) % FRAME_TICKS
  {
  }

  /** No stride of at most 81 ticks crosses two mode boundaries, so a stride is one tick at a time. */
  lemma StrideSplits<P>(act: Act<P>, s: Scan<P>, n: nat)
    requires Running(s) && n < 81
    ensures Stride(act, s, n + 1) == Stride(act, Stride(act, s, n), 1)
  {
    if s.modeclock + n + 1 < LINE_TICKS {
      SplitsInLine(act, s, n);
    } else if s.modeclock + n < LINE_TICKS {
      SplitsAtLineEnd(act, s, n);
    } else {
      SplitsInNextLine(act, s, n);
    }
  }

  lemma SplitsInLine<P>(act: Act<P>, s: Scan<P>, n: nat)
    requires Running(s) && n < 81 && s.modeclock + n + 1 < LINE_TICKS
    ensures Stride(act, s, n + 1) == Stride(act, Stride(act, s, n), 1)
  {
  }

  lemma SplitsAtLineEnd<P>(act: Act<P>, s: Scan<P>, n: nat)
    requires Running(s) && n < 81 && s.modeclock + n + 1 == LINE_TICKS
    ensures Stride(act, s, n + 1) == Stride(act, Stride(act, s, n), 1)
  {
  }

  lemma SplitsInNextLine<P>(act: Act<P>, s: Scan<P>, n: nat)
    requires Running(s) && n < 81 && s.modeclock + n >= LINE_TICKS
    ensures Stride(act, s, n + 1) == Stride(act, Stride(act, s, n), 1)
  {
  }

  /** The bound is tight: a stride of 82 ticks at the end of a line skips mode 2. */
  lemma LongStrideSkips<P>(act: Act<P>, pic: P)
    ensures var s := Scan(0, 455, 0, false, pic);
            && Running(s)
            && Stride(act, s, 82).pic == act(act(pic, 1, NewLine), 1, Enter(3))
            && Stride(act, Stride(act, s, 1), 81).pic == act(act(act(pic, 1, NewLine), 1, Enter(2)), 1, Enter(3))
  {
  }

  lemma ClockSplits<P(!new)>(act: Act<P>)
    ensures Splits(Stepper(act), (s: Scan<P>) => Running(s))
  {
    forall s: Scan<P>, n: nat | Running(s) && n <= STRIDE
      ensures Running(Stepper(act)(s, n))
    {
      StrideRuns(act, s, n);
    }
    forall s: Scan<P>, n: nat | Running(s) && n < STRIDE
      ensures SplitsAt(Stepper(act), s, n)
    {
      StrideSplits(act, s, n);
    }
    forall s: Scan<P> | Running(s)
      ensures Stepper(act)(s, 0) == s
    {
    }
  }

  function Clear<P>(s: Scan<P>): Scan<P> {
    s.(hblanking := false)
  }

  /** A stride never reads the per-call flag and only ever raises it. */
  lemma StrideFlag<P>(act: Act<P>, s: Scan<P>, n: nat)
    ensures Clear(Stride(act, s, n)) == Clear(Stride(act, Clear(s), n))
    ensures Stride(act, s, n).hblanking <==> s.hblanking || Stride(act, Clear(s), n).hblanking
  {
  }

  lemma OneTick<P>(act: Act<P>, s: Scan<P>)
    ensures DoCycle(act, s, 1) == Stride(act, Clear(s), 1)
  {
  }

  /** One of the first `n` single ticks enters HBlank. */
  ghost predicate Flagged<P>(act: Act<P>, s: Scan<P>, n: nat) {
    exists i :: 0 < i <= n && Ticks(act, s, i).hblanking
  }

  lemma FlaggedNext<P>(act: Act<P>, s: Scan<P>, n: nat)
    requires n > 0
    ensures Flagged(act, s, n) <==> Flagged(act, s, n - 1) || Ticks(act, s, n).hblanking
  {
    if i :| 0 < i <= n && Ticks(act, s, i).hblanking {
      assert i == n || 0 < i <= n - 1;
    }
  }

  lemma {:induction false} SinglesAreTicks<P>(act: Act<P>, s: Scan<P>, n: nat)
    ensures Clear(Singles(Stepper(act), Clear(s), n)) == Clear(Ticks(act, s, n))
    ensures Singles(Stepper(act), Clear(s), n).hblanking <==> Flagged(act, s, n)
  {
    if n > 0 {
      SinglesAreTicks(act, s, n - 1);
      FlaggedNext(act, s, n);
      StrideFlag(act, Singles(Stepper(act), Clear(s), n - 1), 1);
      OneTick(act, Ticks(act, s, n - 1));
    }
  }

  /** Batching is exact: with the display on, `do_cycle(t)` leaves what t calls of `do_cycle(1)` leave, in
      every field but the per-call flag, which it raises exactly when one of those calls does. */
  lemma BatchIsTicks<P(!new)>(act: Act<P>, s: Scan<P>, t: nat)
    requires Running(s)
    ensures Clear(DoCycle(act, s, t)) == Clear(Ticks(act, s, t))
    ensures DoCycle(act, s, t).hblanking <==> Flagged(act, s, t)
  {
    ClockSplits(act);
    StridesAreSingles(Stepper(act), (s: Scan<P>) => Running(s), Clear(s), t);
    SinglesAreTicks(act, s, t);
  }

  lemma Round(p: nat, m: nat, n: nat)
    ensures ((p + m) % FRAME_TICKS + n) % FRAME_TICKS == (p + m + n) % FRAME_TICKS
  {
  }

  lemma TickRuns<P>(act: Act<P>, s: Scan<P>)
    requires Running(s)
    ensures Running(DoCycle(act, s, 1)) && Position(DoCycle(act, s, 1)) == (Position(s) + 1) % FRAME_TICKS
  {
    OneTick(act, s);
    StrideRuns(act, Clear(s), 1);
  }

  lemma {:induction false} TicksRun<P>(act: Act<P>, s: Scan<P>, n: nat)
    requires Running(s)
    ensures Running(Ticks(act, s, n)) && Position(Ticks(act, s, n)) == (Position(s) + n) % FRAME_TICKS
  {
    if n > 0 {
      var prev := Ticks(act, s, n - 1);
      TicksRun(act, s, n - 1);
      TickRuns(act, prev);
      Round(Position(s), n - 1, 1);
    }
  }

  /** `do_cycle(t)` moves the position by exactly t, round the 70224 ticks of a frame. */
  lemma BatchRuns<P(!new)>(act: Act<P>, s: Scan<P>, t: nat)
    requires Running(s)
    ensures Running(DoCycle(act, s, t)) && Position(DoCycle(act, s, t)) == (Position(s) + t) % FRAME_TICKS
  {
    BatchIsTicks(act, s, t);
    TicksRun(act, s, t);
    SameClock(DoCycle(act, s, t), Ticks(act, s, t));
  }

  lemma SameClock<P>(s: Scan<P>, t: Scan<P>)
    requires Clear(s) == Clear(t)
    ensures s.mode == t.mode && s.line == t.line && s.modeclock == t.modeclock && s.pic == t.pic
  {
  }

  // ---- Once per frame ----

  /** A tick enters HBlank exactly at clock 253 of a visible line, and VBlank exactly at the start of line
      144. */
  lemma TickEvents<P>(act: Act<P>, s: Scan<P>)
    requires Running(s)
    ensures var t := DoCycle(act, s, 1);
            && (t.hblanking <==> t.line < VISIBLE && t.modeclock == 253)
            && (s.mode != 1 && t.mode == 1 <==> Position(t) == VISIBLE * LINE_TICKS)
  {
  }

  /** How many of the next `n` ticks enter HBlank on line `line`. */
  function HBlanks<P>(act: Act<P>, s: Scan<P>, n: nat, line: nat): nat
    decreases n
  {
    if n == 0 then 0
    else
      var t := Ticks(act, s, n);
      HBlanks(act, s, n - 1, line) + if t.hblanking && t.line == line then 1 else 0
  }

  /** How many of the next `n` ticks enter VBlank. */
  function VBlanks<P>(act: Act<P>, s: Scan<P>, n: nat): nat
    decreases n
  {
    if n == 0 then 0
    else VBlanks(act, s, n - 1) + if Ticks(act, s, n - 1).mode != 1 && Ticks(act, s, n).mode == 1 then 1 else 0
  }

  /** How many of the `n` positions after `p` are `q`. */
  function Hits(p: nat, n: nat, q: nat): int {
    (n + FRAME_TICKS - 1 - (q - p - 1) % FRAME_TICKS) / FRAME_TICKS
  }

  lemma HitsNext(p: nat, n: nat, q: nat)
    requires p < FRAME_TICKS && q < FRAME_TICKS && n > 0
    ensures Hits(p, n, q) == Hits(p, n - 1, q) + if (p + n) % FRAME_TICKS == q then 1 else 0
  {
  }

  /** The n-th tick is an event exactly when it lands on the event's position. */
  lemma EventAt<P>(act: Act<P>, s: Scan<P>, n: nat, line: nat)
    requires Running(s) && line < VISIBLE && n > 0
    ensures var t := Ticks(act, s, n);
            && (t.hblanking && t.line == line <==> (Position(s) + n) % FRAME_TICKS == line * LINE_TICKS + 253)
            && (Ticks(act, s, n - 1).mode != 1 && t.mode == 1
                <==> (Position(s) + n) % FRAME_TICKS == VISIBLE * LINE_TICKS)
  {
    TicksRun(act, s, n - 1);
    TicksRun(act, s, n);
    var was := Ticks(act, s, n - 1);
    TickEvents(act, was);
    assert Ticks(act, s, n) == DoCycle(act, was, 1);
    PositionIs(Ticks(act, s, n), line, 253);
  }

  lemma PositionIs<P>(s: Scan<P>, line: nat, clock: nat)
    requires Running(s) && clock < LINE_TICKS
    ensures Position(s) == line * LINE_TICKS + clock <==> s.line == line && s.modeclock == clock
  {
  }

  /** `hits` counts the positions after `p` that are `q`. */
  ghost predicate Counts(hits: nat -> int, p: nat, q: nat) {
    hits(0) == 0 && forall n: nat :: n > 0 ==> hits(n) == hits(n - 1) + if (p + n) % FRAME_TICKS == q then 1 else 0
  }

  lemma HitsCount(p: nat, q: nat)
    requires p < FRAME_TICKS && q < FRAME_TICKS
    ensures Counts((n: nat) => Hits(p, n, q), p, q)
  {
    forall n: nat | n > 0
      ensures Hits(p, n, q) == Hits(p, n - 1, q) + if (p + n) % FRAME_TICKS == q then 1 else 0
    {
      HitsNext(p, n, q);
    }
  }

  lemma {:induction false} HBlanksAre<P>(act: Act<P>, s: Scan<P>, n: nat, line: nat, hits: nat -> int)
    requires Running(s) && line < VISIBLE && Counts(hits, Position(s), line * LINE_TICKS + 253)
    ensures HBlanks(act, s, n, line) == hits(n)
  {
    if n > 0 {
      HBlanksAre(act, s, n - 1, line, hits);
      EventAt(act, s, n, line);
    }
  }

  lemma {:induction false} VBlanksAre<P>(act: Act<P>, s: Scan<P>, n: nat, hits: nat -> int)
    requires Running(s) && Counts(hits, Position(s), VISIBLE * LINE_TICKS)
    ensures VBlanks(act, s, n) == hits(n)
  {
    if n > 0 {
      VBlanksAre(act, s, n - 1, hits);
      EventAt(act, s, n, 0);
    }
  }

  /** For every number of ticks, the exact number of HBlank entries per visible line. */
  lemma HBlankCounts<P>(act: Act<P>, s: Scan<P>, n: nat, line: nat)
    requires Running(s) && line < VISIBLE
    ensures HBlanks(act, s, n, line) == Hits(Position(s), n, line * LINE_TICKS + 253)
  {
    HitsCount(Position(s), line * LINE_TICKS + 253);
    HBlanksAre(act, s, n, line, (n: nat) => Hits(Position(s), n, line * LINE_TICKS + 253));
  }

  /** For every number of ticks, the exact number of VBlank entries. */
  lemma VBlankCounts<P>(act: Act<P>, s: Scan<P>, n: nat)
    requires Running(s)
    ensures VBlanks(act, s, n) == Hits(Position(s), n, VISIBLE * LINE_TICKS)
  {
    HitsCount(Position(s), VISIBLE * LINE_TICKS);
    VBlanksAre(act, s, n, (n: nat) => Hits(Position(s), n, VISIBLE * LINE_TICKS));
  }

  /** Any frame's worth of consecutive ticks, from any running state, enters HBlank once on each visible
      line and VBlank once. */
  lemma OncePerFrame<P>(act: Act<P>, s: Scan<P>, line: nat)
    requires Running(s) && line < VISIBLE
    ensures HBlanks(act, s, FRAME_TICKS, line) == 1 && VBlanks(act, s, FRAME_TICKS) == 1
  {
    HBlankCounts(act, s, FRAME_TICKS, line);
    VBlankCounts(act, s, FRAME_TICKS);
  }
}
