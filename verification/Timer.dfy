/** The divider-driven timer of kernel/src/gameboy/timer.rs. */
module Timer {
  import opened Common

  type Word = w: nat | w < 0x1_0000

  datatype TimerState = TimerState(div: Word, tima: byte, tma: byte, tac: byte, interrupt: Interrupts)

  predicate Enabled(tac: byte) {
    tac / 4 % 2 == 1
  }

  /** 2^bit for the divider bit that the timer watches. */
  function Half(tac: byte): nat {
    match tac % 4
    case 0 => 512
    case 1 => 8
    case 2 => 32
    case _ => 128
  }

  /** The watched bit of the divider. */
  function Watched(div: nat, tac: byte): nat {
    BitAt(div, Half(tac))
  }

  function BitAt(div: nat, half: nat): nat
    requires half > 0
  {
    div / half % 2
  }

  /** TIMA counts up, and reloads from TMA with an interrupt when it overflows. */
  function Bump(t: TimerState): TimerState {
    if t.tima == 0xFF then t.(tima := t.tma, interrupt := t.interrupt.(timer := true)) else t.(tima := t.tima + 1)
  }

  /** `do_cycle`: one falling-edge test for the whole batch. */
  function Advance(t: TimerState, cycles: nat): TimerState {
    var div := Plus(t.div, cycles);
    Land(t, div, Enabled(t.tac) && Watched(t.div, t.tac) == 1 && Watched(div, t.tac) == 0)
  }

  /** `div.wrapping_add(cycles as u16)`. */
  function Plus(div: Word, cycles: nat): Word {
    (div + cycles % 0x1_0000) % 0x1_0000
  }

  lemma PlusIs(div: Word, cycles: nat)
    ensures Plus(div, cycles) == (div + cycles) % 0x1_0000
  {
    Wraps(cycles, div);
  }

  /** The divider arrives at `div`, with or without a falling edge. */
  function Land(t: TimerState, div: Word, edge: bool): TimerState {
    var u := t.(div := div);
    if edge then Bump(u) else u
  }

  /** `n` calls of `do_cycle(1)`. */
  function Ticks(t: TimerState, n: nat): TimerState
    decreases n
  {
    if n == 0 then t else Advance(Ticks(t, n - 1), 1)
  }

  // ---- What single ticks count ----

  /** How many divider ticks make one count: 4096, 262144, 65536 or 16384 Hz of a divider at 4194304 Hz. */
  function Period(tac: byte): nat {
    [1024, 16, 64, 256][tac % 4]
  }

  lemma PeriodIs(tac: byte)
    ensures Period(tac) == 2 * Half(tac)
  {
  }

  /** How often a free-running divider at `div` passes a multiple of the period in the next `n` ticks. */
  function Passed(div: nat, tac: byte, n: nat): int {
    (div + n) / Period(tac) - div / Period(tac)
  }

  /** TIMA and the interrupt flag after `k` counts. */
  function Counted(t: TimerState, k: nat): TimerState {
    if k < 0x100 - t.tima then t.(tima := t.tima + k)
    else t.(tima := t.tma + (k - (0x100 - t.tima)) % (0x100 - t.tma), interrupt := t.interrupt.(timer := true))
  }

  lemma CountedNext(t: TimerState, k: nat)
    ensures Counted(t, k + 1) == Bump(Counted(t, k))
  {
    var room, over := 0x100 - t.tma, k - (0x100 - t.tima);
    if over >= 0 {
      ModSuccessor(over, room);
    } else if over == -1 {
      assert 0 % room == 0;
    }
  }

  // The watched bit is the parity of div / 2^bit, and div / 2^(bit+1) is half of that quotient.

  lemma DivWithin(x: nat, n: nat, h: nat)
    requires h > 0 && n <= h
    ensures x / h <= (x + n) / h <= x / h + 1
  {
    var k, r := x / h, x % h;
    if r + n < h { DivModIs(x + n, k, r + n, h); } else { DivModIs(x + n, k + 1, r + n - h, h); }
  }

  lemma DivTwice(x: nat, h: nat)
    requires h > 0
    ensures x / (2 * h) == x / h / 2
  {
    var k, r := x / h, x % h;
    DivModIs(x, k / 2, k % 2 * h + r, 2 * h);
  }

  lemma FallsNext(x: nat, h: nat)
    requires h > 0 && x > 0
    ensures x / (2 * h) == (x - 1) / (2 * h) + if (x - 1) / h % 2 == 1 && x / h % 2 == 0 then 1 else 0
  {
    DivTwice(x - 1, h);
    DivTwice(x, h);
    DivWithin(x - 1, 1, h);
  }

  lemma PassedNext(div: nat, tac: byte, n: nat)
    requires n > 0
    ensures Passed(div, tac, n) == Passed(div, tac, n - 1) + if Falls(div + n, tac) then 1 else 0
  {
    PeriodIs(tac);
    FallsNext(div + n, Half(tac));
  }

  /** The watched bit falls as the divider arrives at `div`. */
  predicate Falls(div: nat, tac: byte)
    requires div > 0
  {
    Watched(div - 1, tac) == 1 && Watched(div, tac) == 0
  }

  lemma WatchedWraps(div: nat, tac: byte)
    ensures Watched(div % 0x1_0000, tac) == Watched(div, tac)
  {
    BitWraps(div, Half(tac), match Half(tac) case 512 => 64 case 8 => 4096 case 32 => 1024 case _ => 256);
  }

  lemma BitWraps(div: nat, h: nat, c: nat)
    requires h > 0 && c * h == 0x8000
    ensures div % 0x1_0000 / h % 2 == div / h % 2
  {
    var w, d := div / 0x1_0000, div % 0x1_0000;
    var q, z := d / h, w * c;
    Regroup(w, c, h);
    assert (2 * z + q) * h == 2 * (z * h) + q * h;
    DivModIs(div, 2 * z + q, d % h, h);
    Parity(z, q);
  }

  lemma Regroup(w: nat, c: nat, h: nat)
    requires c * h == 0x8000
    ensures w * c * h == w * 0x8000
  {
    assert w * c * h == w * (c * h);
  }

  lemma Parity(z: nat, q: nat)
    ensures (2 * z + q) % 2 == q % 2
  {
  }

  /** The timer after `n` ticks, `k` of which were counted. */
  function Expected(t: TimerState, n: nat, k: nat): TimerState {
    (if Bit(t.tac, 2) then Counted(t, k) else t).(div := (t.div + n) % 0x1_0000)
  }

  lemma OneTick(t: TimerState, n: nat, k: nat)
    requires n > 0
    ensures Advance(Expected(t, n - 1, k), 1) == Expected(t, n, if Falls(t.div + n, t.tac) then k + 1 else k)
  {
    WatchedWraps(t.div + n - 1, t.tac);
    WatchedWraps(t.div + n, t.tac);
    Wraps(t.div + n - 1, 1);
    var u, d2 := Expected(t, n - 1, k), (t.div + n) % 0x1_0000;
    PlusIs(u.div, 1);
    assert Advance(u, 1) == Land(u, d2, Enabled(t.tac) && Falls(t.div + n, t.tac));
    CountedLands(t, k, u.div, d2, Falls(t.div + n, t.tac));
  }

  lemma CountedLands(t: TimerState, k: nat, d1: Word, d2: Word, edge: bool)
    ensures Land(Counted(t, k).(div := d1), d2, edge) == Counted(t, if edge then k + 1 else k).(div := d2)
  {
    CountedNext(t, k);
  }

  lemma Wraps(x: nat, n: nat)
    ensures (x % 0x1_0000 + n) % 0x1_0000 == (x + n) % 0x1_0000
  {
  }

  /** Single ticks count exactly the multiples of the period passed by the unbounded divider, with the TMA reloads,
      the interrupt and the 16-bit wrap all accounted for. */
  lemma {:induction false} TicksCount(t: TimerState, n: nat)
    ensures Passed(t.div, t.tac, n) >= 0
    ensures Ticks(t, n) == Expected(t, n, Passed(t.div, t.tac, n))
  {
    if n > 0 {
      TicksCount(t, n - 1);
      PassedNext(t.div, t.tac, n);
      OneTick(t, n, Passed(t.div, t.tac, n - 1));
    }
  }

  // ---- Batches ----

  lemma BatchSplits(t: TimerState, n: nat)
    requires Enabled(t.tac) ==> n < Half(t.tac)
    ensures Advance(t, n + 1) == Advance(Advance(t, n), 1)
  {
    var d1, d2 := (t.div + n) % 0x1_0000, (t.div + n + 1) % 0x1_0000;
    Wraps(t.div + n, 1);
    PlusIs(t.div, n);
    PlusIs(t.div, n + 1);
    PlusIs(d1, 1);
    if Enabled(t.tac) {
      OneEdge(t, n);
      LandTwice(t, d1, d2, Watched(t.div, t.tac), Watched(d1, t.tac), Watched(d2, t.tac));
    }
  }

  lemma LandTwice(t: TimerState, d1: Word, d2: Word, w0: nat, w1: nat, w2: nat)
    requires w0 < 2 && w1 < 2 && w2 < 2 && (w0 == w1 || w1 == w2)
    ensures Land(t, d2, w0 == 1 && w2 == 0) == Land(Land(t, d1, w0 == 1 && w1 == 0), d2, w1 == 1 && w2 == 0)
  {
  }

  /** Within half a period the watched bit changes at most once. */
  lemma OneEdge(t: TimerState, n: nat)
    requires n < Half(t.tac)
    ensures var w0 := Watched(t.div, t.tac);
            var w1 := Watched((t.div + n) % 0x1_0000, t.tac);
            var w2 := Watched((t.div + n + 1) % 0x1_0000, t.tac);
            w0 == w1 || w1 == w2
  {
    var h := Half(t.tac);
    DivWithin(t.div, n, h);
    DivWithin(t.div + n, 1, h);
    DivWithin(t.div, n + 1, h);
    WatchedWraps(t.div + n, t.tac);
    WatchedWraps(t.div + n + 1, t.tac);
  }

  lemma {:induction false} BatchWithinBound(t: TimerState, c: nat)
    requires Enabled(t.tac) ==> c <= Half(t.tac)
    ensures Advance(t, c) == Ticks(t, c)
  {
    if c > 0 {
      BatchWithinBound(t, c - 1);
      BatchSplits(t, c - 1);
    }
  }

  /** A batch within the bound requests the interrupt exactly when the count overflows. */
  lemma OverflowRequests(t: TimerState, c: nat)
    requires Bit(t.tac, 2) ==> c <= Period(t.tac) / 2
    ensures Advance(t, c).interrupt
            == t.interrupt.(timer := t.interrupt.timer || (Bit(t.tac, 2) && Passed(t.div, t.tac, c) >= 0x100 - t.tima))
  {
    PeriodIs(t.tac);
    BatchWithinBound(t, c);
    TicksCount(t, c);
  }

  ghost predicate Exact(tac: byte, c: nat) {
    forall t: TimerState :: t.tac == tac ==> Advance(t, c) == Ticks(t, c)
  }

  /** A batch of c cycles is what c single ticks are, in every state, if and only if the timer is off or
      c is at most half the period. */
  lemma BatchExactIff(tac: byte, c: nat)
    ensures Exact(tac, c) <==> (Bit(tac, 2) ==> c <= Period(tac) / 2)
  {
    PeriodIs(tac);
    if Enabled(tac) ==> c <= Half(tac) {
      forall t: TimerState | t.tac == tac
        ensures Advance(t, c) == Ticks(t, c)
      {
        BatchWithinBound(t, c);
      }
    } else {
      BatchTooLong(tac, c);
    }
  }

  /** One cycle more than 2^bit: the bit rises and falls within the batch, and the count is lost. */
  lemma BatchTooLong(tac: byte, c: nat)
    requires Enabled(tac) && c > Half(tac)
    ensures var t := TimerState(Half(tac) - 1, 0, 0, tac, NO_INTERRUPT); Advance(t, c) != Ticks(t, c)
  {
    var t := TimerState(Half(tac) - 1, 0, 0, tac, NO_INTERRUPT);
    DivModIs(t.div, 0, t.div, Half(tac));
    TicksCount(t, c);
    PeriodIs(tac);
    PassedOnce(Half(tac), c);
    var k := Passed(t.div, tac, c);
    assert Counted(t, k).tima != 0 || Counted(t, k).interrupt.timer;
  }

  lemma PassedOnce(h: nat, c: nat)
    requires h > 0 && c > h
    ensures (h - 1 + c) / (2 * h) - (h - 1) / (2 * h) >= 1
  {
    var more := c - h - 1;
    DivModIs(h - 1, 0, h - 1, 2 * h);
    DivModIs(h - 1 + c, 1 + more / (2 * h), more % (2 * h), 2 * h);
  }

  function Batches(t: TimerState, cs: seq<nat>): TimerState {
    if cs == [] then t else Advance(Batches(t, cs[..|cs| - 1]), cs[|cs| - 1])
  }

  function Sum(cs: seq<nat>): nat {
    if cs == [] then 0 else Sum(cs[..|cs| - 1]) + cs[|cs| - 1]
  }

  lemma {:induction false} TicksAdd(t: TimerState, m: nat, n: nat)
    ensures Ticks(Ticks(t, m), n) == Ticks(t, m + n)
  {
    if n > 0 {
      TicksAdd(t, m, n - 1);
    }
  }

  /** Any sequence of batches within the bound equals single ticks of the same total. */
  lemma {:induction false} BatchesAreTicks(t: TimerState, cs: seq<nat>)
    requires Bit(t.tac, 2) ==> forall k :: 0 <= k < |cs| ==> cs[k] <= Period(t.tac) / 2
    ensures Batches(t, cs) == Ticks(t, Sum(cs))
  {
    if cs != [] {
      var init, c := cs[..|cs| - 1], cs[|cs| - 1];
      PeriodIs(t.tac);
      BatchesAreTicks(t, init);
      TicksCount(t, Sum(init));
      BatchWithinBound(Ticks(t, Sum(init)), c);
      TicksAdd(t, Sum(init), c);
    }
  }

  // ---- The timer itself ----

  class Timer {
    var div: Word
    var tima: byte
    var tma: byte
    var tac: byte
    var interrupt: Interrupts

    ghost function State(): TimerState
      reads this
    {
      TimerState(div, tima, tma, tac, interrupt)
    }

    constructor ()
      ensures State() == TimerState(0, 0, 0, 0, NO_INTERRUPT)
    {
      div, tima, tma, tac, interrupt := 0, 0, 0, 0, NO_INTERRUPT;
    }

    method DoCycle(cycles: nat)
      modifies this
      ensures State() == Advance(old(State()), cycles)
    {
      var oldDiv := div;
      div := Plus(div, cycles);
      if !Enabled(tac) {
        return;
      }
      var half := 128;
      match tac % 4 {
        case 0 => half := 512;
        case 1 => half := 8;
        case 2 => half := 32;
        case _ => half := 128;
      }
      if BitAt(oldDiv, half) == 1 && BitAt(div, half) == 0 {
        if tima == 0xFF {
          tima := tma;
          interrupt := interrupt.(timer := true);
        } else {
          tima := tima + 1;
        }
      }
    }
  }
}
