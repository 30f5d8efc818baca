/** What the picture unit of kernel/src/gameboy/gpu.rs has requested and drawn after any number of ticks, told by the
    clock alone. */
module PictureRuns {
  import opened Common
  import opened Video
  import opened Clock
  import opened Ppu

  /** The picture after one tick: a line begins at clock 0, its modes at clock 0, 81 and 253. */
  lemma TickPicture<P>(act: Act<P>, s: Scan<P>)
    requires Running(s)
    ensures DoCycle(act, s, 1).pic ==
            if s.modeclock == 455 then
              var line := if s.line == 153 then 0 else s.line + 1;
              var p := act(s.pic, line, NewLine);
              if line == 144 then act(p, 144, Enter(1)) else if line < 144 then act(p, line, Enter(2)) else p
            else if s.line < 144 && s.modeclock == 80 then act(s.pic, s.line, Enter(3))
            else if s.line < 144 && s.modeclock == 252 then act(s.pic, s.line, Enter(0))
            else s.pic
  {
    OneTick(act, s);
  }

  /** The clock after one tick. */
  lemma TickClock<P>(act: Act<P>, s: Scan<P>)
    requires Running(s)
    ensures var t := DoCycle(act, s, 1);
            && Running(t)
            && (if s.modeclock == 455 then t.modeclock == 0 && t.line == (if s.line == 153 then 0 else s.line + 1)
                else t.modeclock == s.modeclock + 1 && t.line == s.line)
  {
    OneTick(act, s);
  }

  // ---- Requests ----

  /** The mode that a tick enters has its STAT interrupt enabled, or the line that it begins is the one compared. */
  predicate StatDue(c: Config, mode: nat, mode': nat, line: nat, line': nat) {
    || (mode' != mode && ((mode' == 0 && c.m0Inte) || (mode' == 1 && c.m1Inte) || (mode' == 2 && c.m2Inte)))
    || (line' != line && c.lycInte && line' == c.lyc)
  }

  /** What the picture announces. */
  function Flags(p: Picture): (Interrupts, bool, bool) {
    (p.interrupt, p.updated, p.firstFrame)
  }

  /** The flags after ticks that enter VBlank or not, and request STAT or not. */
  predicate FlagsAre(p: Picture, q: Picture, vblank: bool, stat: bool) {
    Flags(q) == (p.interrupt.(vblank := p.interrupt.vblank || vblank, stat := p.interrupt.stat || stat),
                 p.updated || vblank, p.firstFrame && !vblank)
  }

  lemma FlagsOn(p: Picture, q: Picture, r: Picture, v: bool, w: bool, s: bool, t: bool)
    requires FlagsAre(p, q, v, s) && FlagsAre(q, r, w, t)
    ensures FlagsAre(p, r, v || w, s || t)
  {
  }

  /** What a tick from `s` to `t` requests and announces. */
  predicate Requested(c: Config, s: Scan<Picture>, t: Scan<Picture>) {
    FlagsAre(s.pic, t.pic, s.mode != 1 && t.mode == 1, StatDue(c, s.mode, t.mode, s.line, t.line))
  }

  lemma NewLineFlags(c: Config, p: Picture, line: nat)
    ensures FlagsAre(p, React(c, p, line, NewLine), false, c.lycInte && line == c.lyc)
  {
  }

  /** Drawing announces nothing. */
  lemma DrawnFlags(c: Config, p: Picture, line: nat)
    ensures Flags(RenderScan(c, p, line)) == Flags(p)
  {
  }

  lemma EffectFlags(c: Config, p: Picture, line: nat, mode: nat)
    ensures FlagsAre(p, ModeEffect(c, p, line, mode), mode == 1, false)
  {
    DrawnFlags(c, p, line);
  }

  /** The STAT interrupt of the mode is enabled. */
  predicate ModeDue(c: Config, mode: nat) {
    (mode == 0 && c.m0Inte) || (mode == 1 && c.m1Inte) || (mode == 2 && c.m2Inte)
  }

  lemma EnterFlags(c: Config, p: Picture, line: nat, mode: nat)
    ensures FlagsAre(p, React(c, p, line, Enter(mode)), mode == 1, ModeDue(c, mode))
  {
    var u := ModeEffect(c, p, line, mode);
    EffectFlags(c, p, line, mode);
    EnabledFlags(c, u, line, mode);
    FlagsOn(p, u, React(c, p, line, Enter(mode)), mode == 1, false, false, ModeDue(c, mode));
  }

  lemma EnabledFlags(c: Config, u: Picture, line: nat, mode: nat)
    ensures FlagsAre(u, if StatEnabled(c, mode) then u.(interrupt := u.interrupt.(stat := true)) else u, false,
                     ModeDue(c, mode))
  {
  }

  lemma TickRequests(c: Config, s: Scan<Picture>)
    requires Running(s)
    ensures Requested(c, s, DoCycle(Reaction(c), s, 1))
  {
    var t := DoCycle(Reaction(c), s, 1);
    TickPicture(Reaction(c), s);
    TickClock(Reaction(c), s);
    TickDue(c, s, t);
    if s.modeclock == 455 {
      var q := React(c, s.pic, t.line, NewLine);
      NewLineFlags(c, s.pic, t.line);
      if t.line <= 144 {
        var mode := if t.line == 144 then 1 else 2;
        EnterFlags(c, q, t.line, mode);
        FlagsOn(s.pic, q, t.pic, false, mode == 1, c.lycInte && t.line == c.lyc, ModeDue(c, mode));
      }
    } else if s.line < 144 && s.modeclock in {80, 252} {
      EnterFlags(c, s.pic, s.line, if s.modeclock == 80 then 3 else 0);
    }
  }

  /** When a tick is due to request something, by line and clock. */
  lemma TickDue(c: Config, s: Scan<Picture>, t: Scan<Picture>)
    requires Running(s) && Running(t)
    requires if s.modeclock == 455 then t.modeclock == 0 && t.line == (if s.line == 153 then 0 else s.line + 1)
             else t.modeclock == s.modeclock + 1 && t.line == s.line
    ensures s.mode != 1 && t.mode == 1 <==> s.modeclock == 455 && t.line == 144
    ensures StatDue(c, s.mode, t.mode, s.line, t.line)
            <==> if s.modeclock == 455 then
                   (c.lycInte && t.line == c.lyc) || (t.line <= 144 && ModeDue(c, if t.line == 144 then 1 else 2))
                 else s.line < 144 && s.modeclock == 252 && c.m0Inte
  {
  }

  // Over a run, told by what each of its steps does.

  ghost predicate Within(happens: nat -> bool, n: nat) {
    exists i: nat :: i < n && happens(i)
  }

  lemma WithinNext(happens: nat -> bool, n: nat)
    ensures Within(happens, n + 1) <==> Within(happens, n) || happens(n)
  {
    if i: nat :| i < n + 1 && happens(i) { assert i < n || i == n; }
  }

  predicate FlagsStep(pics: nat -> Picture, vblank: nat -> bool, stat: nat -> bool, i: nat) {
    FlagsAre(pics(i), pics(i + 1), vblank(i), stat(i))
  }

  lemma {:induction false} RunFlags(pics: nat -> Picture, vblank: nat -> bool, stat: nat -> bool, n: nat)
    requires forall i: nat :: i < n ==> FlagsStep(pics, vblank, stat, i)
    ensures FlagsAre(pics(0), pics(n), Within(vblank, n), Within(stat, n))
  {
    if n > 0 {
      RunFlags(pics, vblank, stat, n - 1);
      assert FlagsStep(pics, vblank, stat, n - 1);
      WithinNext(vblank, n - 1);
      WithinNext(stat, n - 1);
      FlagsOn(pics(0), pics(n - 1), pics(n), Within(vblank, n - 1), vblank(n - 1), Within(stat, n - 1), stat(n - 1));
    }
  }

  /** Tick `i` enters VBlank. */
  predicate VBlankAt<P>(act: Act<P>, s: Scan<P>, i: nat) {
    Ticks(act, s, i).mode != 1 && Ticks(act, s, i + 1).mode == 1
  }

  function VBlankTicks<P>(act: Act<P>, s: Scan<P>): nat -> bool {
    (i: nat) => VBlankAt(act, s, i)
  }

  function StatTicks<P>(c: Config, act: Act<P>, s: Scan<P>): nat -> bool {
    (i: nat) => StatAt(c, act, s, i)
  }

  function Pictures<P>(act: Act<P>, s: Scan<P>): nat -> P {
    (i: nat) => Ticks(act, s, i).pic
  }

  lemma PicturesAre<P>(act: Act<P>, s: Scan<P>, n: nat)
    ensures Pictures(act, s)(0) == s.pic && Pictures(act, s)(n) == Ticks(act, s, n).pic
  {
  }

  /** Tick `i` requests STAT. */
  predicate StatAt<P>(c: Config, act: Act<P>, s: Scan<P>, i: nat) {
    var was, now := Ticks(act, s, i), Ticks(act, s, i + 1);
    StatDue(c, was.mode, now.mode, was.line, now.line)
  }

  predicate CountStep(count: nat -> nat, happens: nat -> bool, i: nat) {
    count(i + 1) == count(i) + if happens(i) then 1 else 0
  }

  lemma {:induction false} CountPositive(count: nat -> nat, happens: nat -> bool, n: nat)
    requires count(0) == 0 && forall i: nat :: i < n ==> CountStep(count, happens, i)
    ensures count(n) > 0 <==> Within(happens, n)
  {
    if n > 0 {
      CountPositive(count, happens, n - 1);
      assert CountStep(count, happens, n - 1);
      WithinNext(happens, n - 1);
    }
  }

  lemma VBlanksPositive<P>(act: Act<P>, s: Scan<P>, n: nat)
    ensures VBlanks(act, s, n) > 0 <==> Within(VBlankTicks(act, s), n)
  {
    forall i: nat | i < n
      ensures CountStep(VBlankCount(act, s), VBlankTicks(act, s), i)
    {
      VBlankStepAt(act, s, i);
    }
    CountPositive(VBlankCount(act, s), VBlankTicks(act, s), n);
  }

  function VBlankCount<P>(act: Act<P>, s: Scan<P>): nat -> nat {
    (i: nat) => VBlanks(act, s, i)
  }

  lemma VBlankStepAt<P>(act: Act<P>, s: Scan<P>, i: nat)
    ensures CountStep(VBlankCount(act, s), VBlankTicks(act, s), i)
  {
  }

  lemma FlagsStepAt(c: Config, s: Scan<Picture>, i: nat)
    requires Running(s)
    ensures var act := Reaction(c); FlagsStep(Pictures(act, s), VBlankTicks(act, s), StatTicks(c, act, s), i)
  {
    TicksRun(Reaction(c), s, i);
    TickRequests(c, Ticks(Reaction(c), s, i));
    TickOn(Reaction(c), s, i);
  }

  /** Over any number of single ticks. */
  lemma TicksRequest(c: Config, act: Act<Picture>, s: Scan<Picture>, n: nat)
    requires Running(s) && act == Reaction(c)
    ensures FlagsAre(Pictures(act, s)(0), Pictures(act, s)(n), Within(VBlankTicks(act, s), n),
                     Within(StatTicks(c, act, s), n))
  {
    forall i: nat | i < n
      ensures FlagsStep(Pictures(act, s), VBlankTicks(act, s), StatTicks(c, act, s), i)
    {
      FlagsStepAt(c, s, i);
    }
    RunFlags(Pictures(act, s), VBlankTicks(act, s), StatTicks(c, act, s), n);
  }

  /** One of the first `n` ticks requests STAT. */
  ghost predicate StatWithin<P>(c: Config, act: Act<P>, s: Scan<P>, n: nat) {
    exists i: nat :: i < n && StatAt(c, act, s, i)
  }

  lemma TickOn<P>(act: Act<P>, s: Scan<P>, n: nat)
    ensures Ticks(act, s, n + 1) == DoCycle(act, Ticks(act, s, n), 1)
  {
  }

  /** `do_cycle` requests VBlank if and only if VBlank is entered, and STAT if and only if a tick enters a mode whose
      interrupt is enabled or begins the compared line. */
  lemma CycleRequests(c: Config, s: Scan<Picture>, t: nat)
    requires Running(s)
    ensures var p := DoCycle(Reaction(c), s, t).pic;
            && (p.interrupt.vblank <==> s.pic.interrupt.vblank || VBlanks(Reaction(c), s, t) > 0)
            && (p.interrupt.stat <==> s.pic.interrupt.stat || StatWithin(c, Reaction(c), s, t))
            && p.interrupt == s.pic.interrupt.(vblank := p.interrupt.vblank, stat := p.interrupt.stat)
            && (p.updated <==> s.pic.updated || VBlanks(Reaction(c), s, t) > 0)
            && (p.firstFrame <==> s.pic.firstFrame && VBlanks(Reaction(c), s, t) == 0)
  {
    TicksRequest(c, Reaction(c), s, t);
    BatchPicture(Reaction(c), s, t);
    StatsWithin(c, Reaction(c), s, t);
    VBlanksPositive(Reaction(c), s, t);
  }

  /** The picture after a batch is the one after as many ticks. */
  lemma BatchPicture<P(!new)>(act: Act<P>, s: Scan<P>, t: nat)
    requires Running(s)
    ensures DoCycle(act, s, t).pic == Pictures(act, s)(t) && Pictures(act, s)(0) == s.pic
  {
    BatchIsTicks(act, s, t);
    SameClock(DoCycle(act, s, t), Ticks(act, s, t));
    PicturesAre(act, s, t);
  }

  lemma StatsWithin<P>(c: Config, act: Act<P>, s: Scan<P>, n: nat)
    ensures Within(StatTicks(c, act, s), n) <==> StatWithin(c, act, s, n)
  {
    assert forall i: nat :: StatTicks(c, act, s)(i) == StatAt(c, act, s, i);
  }

  // ---- One tick's drawing ----

  /** The window shows on a line that is drawn now. */
  predicate WindowShows(c: Config, p: Picture) {
    c.winOn && p.wyTrigger && c.winx <= 166
  }

  /** A line is drawn at clock 253, with the registers as they are then, and at no other tick is anything drawn. */
  lemma TickDraws(c: Config, s: Scan<Picture>)
    requires Running(s)
    ensures var p, q := s.pic, DoCycle(Reaction(c), s, 1).pic;
            if s.line < 144 && s.modeclock == 252 && !p.firstFrame then
              var winy := if WindowShows(c, p) then p.wyPos + 1 else -1;
              && q.frame == p.frame[s.line := RenderRow(c, s.line, winy)] && q.bgprio == BgPrioRow(c, s.line, winy)
              && q.wyPos == if WindowShows(c, p) then p.wyPos + 1 else p.wyPos
            else q.frame == p.frame && q.bgprio == p.bgprio
  {
    TickPicture(Reaction(c), s);
  }

  /** The window is armed, at its first line, when mode 3 begins on line WY, and disarmed when VBlank begins. */
  lemma TickArms(c: Config, s: Scan<Picture>)
    requires Running(s)
    ensures var p, q := s.pic, DoCycle(Reaction(c), s, 1).pic;
            if s.line == 143 && s.modeclock == 455 then !q.wyTrigger
            else if s.line < 144 && s.modeclock == 80 && c.winOn && s.line == c.winy then
              q.wyTrigger && q.wyPos == if p.wyTrigger then p.wyPos else -1
            else q.wyTrigger == p.wyTrigger && ((s.line < 144 && s.modeclock == 252) || q.wyPos == p.wyPos)
  {
    TickPicture(Reaction(c), s);
  }

  // ---- A whole frame ----

  /** The frame is about to be drawn: VBlank has just been entered. */
  predicate FrameStart(s: Scan<Picture>) {
    Running(s) && s.line == 144 && s.modeclock == 0 && !s.pic.wyTrigger && !s.pic.firstFrame
  }

  /** Whatever came before, entering VBlank leads there. */
  lemma VBlankStartsFrame(c: Config, s: Scan<Picture>)
    requires Running(s) && s.mode != 1 && DoCycle(Reaction(c), s, 1).mode == 1
    ensures FrameStart(DoCycle(Reaction(c), s, 1))
  {
    TickPicture(Reaction(c), s);
    TickClock(Reaction(c), s);
  }

  /** The line of the window that a screen line shows: the window starts at line WY and is not interrupted. */
  function WindowLine(c: Config, line: nat): int {
    if c.winOn && c.winx <= 166 && c.winy <= line then line - c.winy else -1
  }

  /** The part of the frame above the clock is drawn, from `was`. */
  ghost predicate DrawnTo(c: Config, was: Frame, frame: Frame, n: nat) {
    forall l :: 0 <= l < 144 ==> frame[l] == if l < n then RenderRow(c, l, WindowLine(c, l)) else was[l]
  }

  /** While the lines are drawn: how many are, and how far the window has come. */
  ghost predicate Drawing(c: Config, was: Frame, s: Scan<Picture>) {
    var n := if s.modeclock > 252 then s.line + 1 else s.line;
    && s.line < 144 && !s.pic.firstFrame && DrawnTo(c, was, s.pic.frame, n)
    && (s.pic.wyTrigger <==> c.winOn && (c.winy < s.line || (c.winy == s.line && s.modeclock > 80)))
    && (s.pic.wyTrigger ==> s.pic.wyPos == if c.winx <= 166 then n - 1 - c.winy else -1)
  }

  /** Before that, in VBlank. */
  ghost predicate Waiting(was: Frame, s: Scan<Picture>) {
    s.line >= 144 && !s.pic.firstFrame && !s.pic.wyTrigger && s.pic.frame == was
  }

  lemma WaitingOn(c: Config, was: Frame, s: Scan<Picture>)
    requires Running(s) && Waiting(was, s)
    ensures var t := DoCycle(Reaction(c), s, 1);
            if s.line == 153 && s.modeclock == 455 then Drawing(c, was, t) else Waiting(was, t)
  {
    TickPicture(Reaction(c), s);
    TickClock(Reaction(c), s);
  }

  lemma DrawingOn(c: Config, was: Frame, s: Scan<Picture>)
    requires Running(s) && Drawing(c, was, s) && !(s.line == 143 && s.modeclock == 455)
    ensures Drawing(c, was, DoCycle(Reaction(c), s, 1))
  {
    TickPicture(Reaction(c), s);
    TickClock(Reaction(c), s);
    if s.modeclock == 252 { LineDrawn(c, was, s.pic, s.line); }
  }

  /** A line is drawn. */
  lemma LineDrawn(c: Config, was: Frame, p: Picture, line: nat)
    requires line < 144 && !p.firstFrame && DrawnTo(c, was, p.frame, line)
    requires p.wyTrigger <==> c.winOn && c.winy <= line
    requires p.wyTrigger ==> p.wyPos == if c.winx <= 166 then line - 1 - c.winy else -1
    ensures var q := React(c, p, line, Enter(0));
            && !q.firstFrame && q.wyTrigger == p.wyTrigger && DrawnTo(c, was, q.frame, line + 1)
            && (q.wyTrigger ==> q.wyPos == if c.winx <= 166 then line - c.winy else -1)
  {
  }

  lemma DrawingEnds(c: Config, was: Frame, s: Scan<Picture>)
    requires Running(s) && Drawing(c, was, s) && s.line == 143 && s.modeclock == 455
    ensures var t := DoCycle(Reaction(c), s, 1); FrameStart(t) && DrawnTo(c, was, t.pic.frame, 144)
  {
    TickPicture(Reaction(c), s);
    TickClock(Reaction(c), s);
  }

  /** `n` ticks into the frame. */
  lemma {:induction false} FrameAt(c: Config, s: Scan<Picture>, n: nat)
    requires FrameStart(s) && n < 70224
    ensures var t := Ticks(Reaction(c), s, n);
            && Running(t) && Position(t) == (Position(s) + n) % 70224
            && if n < 4560 then Waiting(s.pic.frame, t) else Drawing(c, s.pic.frame, t)
  {
    TicksRun(Reaction(c), s, n);
    if n > 0 {
      FrameAt(c, s, n - 1);
      var u := Ticks(Reaction(c), s, n - 1);
      PhaseIs(u, n - 1);
      if n - 1 < 4560 { WaitingOn(c, s.pic.frame, u); } else { DrawingOn(c, s.pic.frame, u); }
    }
  }

  /** Line and clock, `n` ticks after the start of line 144. */
  lemma PhaseIs<P>(s: Scan<P>, n: nat)
    requires Running(s) && n < 70224 && Position(s) == (144 * 456 + n) % 70224
    ensures s.line == 153 && s.modeclock == 455 <==> n == 4559
    ensures s.line == 143 && s.modeclock == 455 <==> n == 70223
    ensures s.line >= 144 <==> n < 4560
  {
  }

  /** With the registers as they are, a frame's worth of ticks from the start of VBlank draws every line of the
      screen, with the window line that WY gives, requests VBlank, and ends where it began. */
  lemma FrameDrawn(c: Config, s: Scan<Picture>)
    requires FrameStart(s)
    ensures var t := DoCycle(Reaction(c), s, 70224);
            && FrameStart(t) && t.pic.updated && t.pic.interrupt.vblank
            && forall l :: 0 <= l < 144 ==> t.pic.frame[l] == RenderRow(c, l, WindowLine(c, l))
  {
    var act := Reaction(c);
    FrameAt(c, s, 70223);
    PhaseIs(Ticks(act, s, 70223), 70223);
    DrawingEnds(c, s.pic.frame, Ticks(act, s, 70223));
    BatchIsTicks(act, s, 70224);
    SameClock(DoCycle(act, s, 70224), Ticks(act, s, 70224));
    CycleRequests(c, s, 70224);
    OncePerFrame(act, s, 0);
  }

  lemma TickBlank(c: Config, s: Scan<Picture>)
    requires Running(s) && s.pic.firstFrame
    ensures var t := DoCycle(Reaction(c), s, 1);
            !(s.mode != 1 && t.mode == 1) ==> t.pic.firstFrame && t.pic.frame == s.pic.frame
  {
    TickPicture(Reaction(c), s);
    TickClock(Reaction(c), s);
  }

  /** Nothing is drawn before the first VBlank. */
  predicate StaysBlank(p: Picture, q: Picture, vblank: bool) {
    p.firstFrame && !vblank ==> q.firstFrame && q.frame == p.frame
  }

  predicate BlankStep(pics: nat -> Picture, vblank: nat -> bool, i: nat) {
    StaysBlank(pics(i), pics(i + 1), vblank(i))
  }

  lemma BlankStepAt(c: Config, s: Scan<Picture>, i: nat)
    requires Running(s)
    ensures BlankStep(Pictures(Reaction(c), s), VBlankTicks(Reaction(c), s), i)
  {
    var was := Ticks(Reaction(c), s, i);
    TicksRun(Reaction(c), s, i);
    TickOn(Reaction(c), s, i);
    if was.pic.firstFrame { TickBlank(c, was); }
  }

  lemma {:induction false} RunBlank(pics: nat -> Picture, vblank: nat -> bool, n: nat)
    requires forall i: nat :: i < n ==> BlankStep(pics, vblank, i)
    requires pics(0).firstFrame && !Within(vblank, n)
    ensures pics(n).firstFrame && pics(n).frame == pics(0).frame
  {
    if n > 0 {
      WithinNext(vblank, n - 1);
      RunBlank(pics, vblank, n - 1);
      assert BlankStep(pics, vblank, n - 1);
    }
  }

  /** Until VBlank is entered once, a display that has been switched on shows nothing new. */
  lemma FirstFrameBlank(c: Config, s: Scan<Picture>, t: nat)
    requires Running(s) && s.pic.firstFrame && VBlanks(Reaction(c), s, t) == 0
    ensures DoCycle(Reaction(c), s, t).pic.frame == s.pic.frame
  {
    VBlanksPositive(Reaction(c), s, t);
    BatchPicture(Reaction(c), s, t);
    TicksBlank(c, Reaction(c), s, t);
  }

  lemma TicksBlank(c: Config, act: Act<Picture>, s: Scan<Picture>, n: nat)
    requires Running(s) && act == Reaction(c) && Pictures(act, s)(0).firstFrame && !Within(VBlankTicks(act, s), n)
    ensures Pictures(act, s)(n).frame == Pictures(act, s)(0).frame
  {
    forall i: nat | i < n
      ensures BlankStep(Pictures(act, s), VBlankTicks(act, s), i)
    {
      BlankStepAt(c, s, i);
    }
    RunBlank(Pictures(act, s), VBlankTicks(act, s), n);
  }

  // ---- Switching the display off and on ----

  /** Every dot is white. */
  predicate White(f: Frame) {
    forall l, x :: 0 <= l < 144 && 0 <= x < 160 ==> f[l][x] == Pixel(255, 255, 255, 0)
  }

  /** Off: the clock parked at the top of the screen, nothing shown, the window disarmed. */
  predicate IsDark(u: Unit) {
    && !u.on && u.s.line == 0 && u.s.modeclock == 0 && u.s.mode == 0
    && White(u.s.pic.frame) && u.s.pic.firstFrame && !u.s.pic.wyTrigger
  }

  lemma SwitchedOff(u: Unit, v: byte)
    requires u.on && v < 0x80
    ensures var w := Step(u, Lcdc(v));
            IsDark(w) && w.s.pic.updated && w.s.pic.interrupt == u.s.pic.interrupt
  {
  }

  /** It stays so through everything but a write that switches it on, however many cycles pass. */
  lemma {:induction false} StaysDark(u: Unit, ops: seq<Op>)
    requires IsDark(u) && forall k :: 0 <= k < |ops| && ops[k].Lcdc? ==> ops[k].v < 0x80
    ensures IsDark(Run(u, ops))
    decreases |ops|
  {
    if ops != [] { StaysDark(Step(u, ops[0]), ops[1..]); }
  }

  /** Switching on enters mode 2 at clock 4 of line 0, with its STAT interrupt. */
  lemma SwitchedOn(u: Unit, v: byte)
    requires IsDark(u) && v >= 0x80
    ensures var w := Step(u, Lcdc(v));
            && w.on && Running(w.s) && Position(w.s) == 4 && w.s.mode == 2 && w.c == LcdcConfig(u.c, v)
            && w.s.pic == u.s.pic.(interrupt := u.s.pic.interrupt.(stat := u.s.pic.interrupt.stat || u.c.m2Inte))
  {
    EnterFlags(LcdcConfig(u.c, v), u.s.pic, 0, 2);
  }

  /** Then the screen stays white for the 65660 ticks up to the start of VBlank, which is requested there and ends the
      first frame. */
  lemma DarkUntilVBlank(u: Unit, v: byte, n: nat)
    requires IsDark(u) && v >= 0x80
    ensures var w := Step(Step(u, Lcdc(v)), Cycle(n));
            && Position(w.s) == (n + 4) % 70224 && (w.s.pic.firstFrame <==> n < 65660)
            && (n < 65660 ==> White(w.s.pic.frame))
            && (w.s.pic.interrupt.vblank <==> u.s.pic.interrupt.vblank || n >= 65660)
  {
    var w := Step(u, Lcdc(v));
    SwitchedOn(u, v);
    BatchRuns(Reaction(w.c), w.s, n);
    CycleRequests(w.c, w.s, n);
    VBlankCounts(Reaction(w.c), w.s, n);
    FirstVBlank(n);
    if n < 65660 { FirstFrameBlank(w.c, w.s, n); }
  }

  lemma FirstVBlank(n: nat)
    ensures Hits(4, n, 65664) > 0 <==> n >= 65660
  {
  }

  /** A write to LYC compares at once: it requests STAT if and only if the comparison is enabled and the line is the one
      written. */
  lemma LycCompares(u: Unit, v: byte)
    ensures var w := Step(u, Lyc(v));
            && w.c == u.c.(lyc := v) && w.on == u.on
            && w.s.line == u.s.line && w.s.modeclock == u.s.modeclock && w.s.mode == u.s.mode
            && FlagsAre(u.s.pic, w.s.pic, false, u.c.lycInte && u.s.line == v)
  {
  }
}
