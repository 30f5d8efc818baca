/** `draw_line` of kernel/src/gui/framebuffer.rs round by round in wrapping 32-bit arithmetic, and exactly which
    lines it draws right. Module `Bresenham` holds the algorithm itself. */
module LineRun {
  import opened LineError
  import opened Euclid

  /** 32-bit arithmetic wraps. */
  function Wrap(x: int): i32 {
    (x + 0x8000_0000) % 0x1_0000_0000 - 0x8000_0000
  }

  /** `(to - from).abs()`. */
  function Side(from: i32, to: i32): i32 {
    Wrap(Abs(Wrap(to - from)))
  }

  function Minus(x: i32): i32 {
    Wrap(0 - x)
  }

  /** The variables of the loop. */
  datatype State = State(x: i32, y: i32, err: i32)

  function Start(a: Point, b: Point): State {
    State(a.x, a.y, Wrap(Side(a.x, b.x) + Minus(Side(a.y, b.y))))
  }

  /** The branches of one round: whether x moves, and whether y does. */
  predicate MovesX(a: Point, b: Point, err: i32) {
    Wrap(2 * err) >= Minus(Side(a.y, b.y))
  }

  predicate MovesY(a: Point, b: Point, err: i32) {
    Wrap(2 * err) <= Side(a.x, b.x)
  }

  /** One round after the point is plotted. */
  function Round(a: Point, b: Point, s: State): State {
    RoundBy(Side(a.x, b.x), Minus(Side(a.y, b.y)), a, b, s)
  }

  function RoundBy(dx: i32, dy: i32, a: Point, b: Point, s: State): State {
    var right, down := Wrap(2 * s.err) >= dy, Wrap(2 * s.err) <= dx;
    var once := if right then Wrap(s.err + dy) else s.err;
    State(if right then Wrap(Toward(a.x, b.x, s.x)) else s.x, if down then Wrap(Toward(a.y, b.y, s.y)) else s.y,
          if down then Wrap(once + dx) else once)
  }

  function Run(a: Point, b: Point, n: nat): State {
    if n == 0 then Start(a, b) else Round(a, b, Run(a, b, n - 1))
  }

  /** The points of the first `n` rounds. */
  function Plotted(a: Point, b: Point, n: nat): (s: seq<Point>)
    ensures |s| == n
    ensures forall k :: 0 <= k < n ==> s[k] == Point(Run(a, b, k).x, Run(a, b, k).y)
  {
    if n == 0 then [] else Plotted(a, b, n - 1) + [Point(Run(a, b, n - 1).x, Run(a, b, n - 1).y)]
  }

  // ---- Wrapping ----

  lemma WrapSmall(x: int)
    requires In32(x)
    ensures Wrap(x) == x
  {
  }

  /** Wrapping is the one way into 32 bits by a multiple of 2^32. */
  lemma WrapIs(x: int, r: int, q: int)
    requires In32(r) && x == r + q * 0x1_0000_0000
    ensures Wrap(x) == r
  {
  }

  lemma WrapBy(x: int) returns (q: int)
    ensures x == Wrap(x) + q * 0x1_0000_0000
  {
    q := (x + 0x8000_0000) / 0x1_0000_0000;
  }

  lemma WrapSum(x: int, y: int)
    ensures Wrap(Wrap(x) + y) == Wrap(x + y)
  {
    var p := WrapBy(x);
    var q := WrapBy(x + y);
    WrapIs(Wrap(x) + y, Wrap(x + y), q - p);
  }

  lemma WrapDouble(x: int)
    ensures Wrap(2 * Wrap(x)) == Wrap(2 * x)
  {
    var p := WrapBy(x);
    var q := WrapBy(2 * x);
    WrapIs(2 * Wrap(x), Wrap(2 * x), q - 2 * p);
  }

  // ---- The bound ----

  /** Both sides fit 32 bits, so that computing them does not wrap. */
  predicate SidesFit(a: Point, b: Point) {
    Abs(b.x - a.x) < 0x8000_0000 && Abs(b.y - a.y) < 0x8000_0000
  }

  /** Twice the error term stays within 32 bits. At its largest it is twice the difference of the sides, and
      twice the largest multiple of their common divisor within half of the longer side. */
  predicate Fits(a: Point, b: Point) {
    var dx, dy := Abs(b.x - a.x), Abs(b.y - a.y);
    if dx >= dy then 2 * (HalfMultiple(dx, dy) + dx - dy) < 0x8000_0000
    else 2 * (HalfMultiple(dy, dx) + dy - dx) <= 0x8000_0000
  }

  lemma SidesAre(a: Point, b: Point)
    requires SidesFit(a, b)
    ensures Side(a.x, b.x) == Abs(b.x - a.x) && Minus(Side(a.y, b.y)) == 0 - Abs(b.y - a.y)
  {
    WrapSmall(b.x - a.x);
    WrapSmall(b.y - a.y);
    WrapSmall(Abs(b.x - a.x));
    WrapSmall(Abs(b.y - a.y));
    WrapSmall(0 - Abs(b.y - a.y));
  }

  // ---- Within the bound: the run is the exact one ----

  /** After `n` rounds the run is where exact arithmetic is. */
  predicate Follows(a: Point, b: Point, n: nat) {
    var s := Run(a, b, n);
    s.x == SpotX(a, b, n) && s.y == SpotY(a, b, n) && s.err == Wrap(ErrAt(a, b, n))
  }

  lemma {:induction false} RunFollows(a: Point, b: Point, n: nat)
    requires SidesFit(a, b) && n <= Steps(a, b)
    requires forall k :: 0 <= k < n ==> In32(2 * ErrAt(a, b, k))
    ensures Follows(a, b, n)
    decreases n
  {
    SidesAre(a, b);
    FirstRound(a, b);
    if n > 0 {
      RunFollows(a, b, n - 1);
      Round32(a, b, n - 1);
    }
  }

  /** One round in 32-bit arithmetic leads from round `n` to round `n + 1`, whenever twice the error term fits. */
  lemma Round32(a: Point, b: Point, n: nat)
    requires SidesFit(a, b) && n < Steps(a, b) && Follows(a, b, n) && In32(2 * ErrAt(a, b, n))
    ensures Follows(a, b, n + 1)
  {
    var err := ErrAt(a, b, n);
    var right, down := 2 * err + Abs(b.y - a.y) >= 0, 2 * err <= Abs(b.x - a.x);
    Branches(a, b, err);
    WrapSmall(2 * err);
    NextRound(a, b, n);
    SpotFacts(a, b, n + 1);
    RoundIs(a, b, Run(a, b, n), err, right, down);
    WrapSmall(SpotX(a, b, n + 1));
    WrapSmall(SpotY(a, b, n + 1));
  }

  /** One round, given its branches. */
  lemma RoundIs(a: Point, b: Point, s: State, err: int, right: bool, down: bool)
    requires SidesFit(a, b) && s.err == Wrap(err) && MovesX(a, b, s.err) == right && MovesY(a, b, s.err) == down
    ensures Round(a, b, s)
            == State(Wrap(if right then Toward(a.x, b.x, s.x) else s.x), Wrap(if down then Toward(a.y, b.y, s.y) else s.y),
                     Wrap(err - (if right then Abs(b.y - a.y) else 0) + (if down then Abs(b.x - a.x) else 0)))
  {
    SidesAre(a, b);
    RoundByIs(Side(a.x, b.x), Minus(Side(a.y, b.y)), a, b, s, err, right, down);
  }

  /** The error term may wrap in both updates. */
  lemma RoundByIs(dx: i32, dy: i32, a: Point, b: Point, s: State, err: int, right: bool, down: bool)
    requires s.err == Wrap(err) && right == (Wrap(2 * s.err) >= dy) && down == (Wrap(2 * s.err) <= dx)
    ensures RoundBy(dx, dy, a, b, s)
            == State(Wrap(if right then Toward(a.x, b.x, s.x) else s.x), Wrap(if down then Toward(a.y, b.y, s.y) else s.y),
                     Wrap(err + (if right then dy else 0) + (if down then dx else 0)))
  {
    WrapSum(err, dy);
    WrapSum(if right then err + dy else err, dx);
    WrapSmall(s.x);
    WrapSmall(s.y);
  }

  /** The branches depend on the wrapped double of the error term. */
  lemma Branches(a: Point, b: Point, err: int)
    requires SidesFit(a, b)
    ensures MovesX(a, b, Wrap(err)) <==> Wrap(2 * err) + Abs(b.y - a.y) >= 0
    ensures MovesY(a, b, Wrap(err)) <==> Wrap(2 * err) <= Abs(b.x - a.x)
  {
    SidesAre(a, b);
    WrapDouble(err);
  }

  // ---- How large the error term gets ----

  /** The drift after `n` rounds. */
  function DriftAt(a: Point, b: Point, n: nat): int {
    var dx, dy := Abs(b.x - a.x), Abs(b.y - a.y);
    Drift(dx, dy, Moves(dx, dy, n).0, Moves(dx, dy, n).1)
  }

  lemma DriftHalf(a: Point, b: Point, n: nat)
    requires n <= Steps(a, b)
    ensures Half(Abs(b.x - a.x), Abs(b.y - a.y), DriftAt(a, b, n))
    ensures ErrAt(a, b, n) == DriftAt(a, b, n) + Abs(b.x - a.x) - Abs(b.y - a.y)
  {
    MovesTrack(Abs(b.x - a.x), Abs(b.y - a.y), n);
  }

  lemma ErrFits(a: Point, b: Point, n: nat)
    requires SidesFit(a, b) && Fits(a, b) && n <= Steps(a, b)
    ensures In32(2 * ErrAt(a, b, n))
  {
    var dx, dy, d := Abs(b.x - a.x), Abs(b.y - a.y), DriftAt(a, b, n);
    var (i, j) := Moves(dx, dy, n);
    DriftHalf(a, b, n);
    if dx >= dy {
      if dx > 0 { HalfIsLargest(dx, dy, i, j, d); }
    } else {
      SwapSides(dx, dy, i, j);
      HalfIsLargest(dy, dx, 0 - j, 0 - i, d);
    }
  }

  lemma SwapSides(dx: nat, dy: nat, i: int, j: int)
    ensures j * dx - i * dy == (0 - i) * dy - (0 - j) * dx
  {
  }

  /** The bound is met in some round. */
  lemma WorstRound(a: Point, b: Point) returns (n: nat)
    requires Steps(a, b) > 0
    ensures n < Steps(a, b)
    ensures var dx, dy := Abs(b.x - a.x), Abs(b.y - a.y);
            DriftAt(a, b, n) == if dx >= dy then HalfMultiple(dx, dy) else 0 - HalfMultiple(dy, dx)
  {
    var dx, dy := Abs(b.x - a.x), Abs(b.y - a.y);
    var z: int;
    if dx >= dy {
      n, z := HalfIsMet(dx, dy);
      MovesTrack(dx, dy, n);
      var j: int := Moves(dx, dy, n).1;
      OnlyHalf(dx, n * dy, HalfMultiple(dx, dy), z, j, DriftAt(a, b, n));
    } else {
      n, z := HalfIsMet(dy, dx);
      MovesTrack(dx, dy, n);
      var i: int := Moves(dx, dy, n).0;
      OnlyHalfBelow(dy, n * dx, HalfMultiple(dy, dx), z, i, DriftAt(a, b, n));
    }
  }

  lemma OnlyHalf(long: int, run: int, half: int, z: int, j: int, d: int)
    requires run + half == z * long && d == j * long - run
    requires long > 0 && 0 <= 2 * half <= long && 2 * d <= long && (d == 0 || 0 < 2 * d + long)
    ensures d == half
  {
    var t := j - z;
    assert d == half + t * long;
    if t >= 1 { Mono(1, t, long); } else if t <= -1 { Mono(t, -1, long); }
  }

  lemma OnlyHalfBelow(long: int, run: int, half: int, z: int, i: int, d: int)
    requires run + half == z * long && d == run - i * long
    requires long > 0 && 0 <= 2 * half <= long && 0 <= 2 * d + long && 2 * d < long
    ensures d == 0 - half
  {
    var t := z - i;
    assert d == t * long - half;
    if t >= 1 { Mono(1, t, long); } else if t <= -1 { Mono(t, -1, long); }
  }

  // ---- Beyond the bound: the first wrap leaves the line ----

  lemma StepInside(from: i32, to: i32, i: nat)
    requires i < Abs(to - from)
    ensures Wrap(Toward(from, to, Along(from, if from < to then 1 else -1, i)))
            == Along(from, if from < to then 1 else -1, i + 1)
  {
    WrapSmall(Toward(from, to, Along(from, if from < to then 1 else -1, i)));
  }

  lemma StepOutside(from: i32, to: i32)
    requires Abs(to - from) < 0x8000_0000
    ensures !Between(from, Wrap(Toward(from, to, Along(from, if from < to then 1 else -1, Abs(to - from)))), to)
  {
    if from < to {
      if to == 0x7FFF_FFFF { WrapIs(0x8000_0000, -0x8000_0000, 1); } else { WrapSmall(to + 1); }
    } else {
      if to == -0x8000_0000 { WrapIs(-0x8000_0001, 0x7FFF_FFFF, -1); } else { WrapSmall(to - 1); }
    }
  }

  /** Where the wrapped double of the error term lands, and that it moves the shorter side. */
  lemma WrongBranch(a: Point, b: Point, n: nat)
    requires SidesFit(a, b) && n < Steps(a, b) && !In32(2 * ErrAt(a, b, n))
    ensures 2 * Abs(ErrAt(a, b, n)) > Steps(a, b)
    ensures if Abs(b.x - a.x) >= Abs(b.y - a.y) then MovesY(a, b, Wrap(ErrAt(a, b, n)))
            else MovesX(a, b, Wrap(ErrAt(a, b, n)))
  {
    var err := ErrAt(a, b, n);
    DriftHalf(a, b, n);
    Branches(a, b, err);
    if Abs(b.x - a.x) >= Abs(b.y - a.y) {
      WrapIs(2 * err, 2 * err - 0x1_0000_0000, 1);
    } else {
      WrapIs(2 * err, 2 * err + 0x1_0000_0000, -1);
    }
  }

  /** What a wrong branch does to a point on the line of which the longer side moves on. */
  lemma StrayCross(a: Point, b: Point, p: Point, i: nat, j: nat)
    requires p.x == Along(a.x, if a.x < b.x then 1 else -1, i) && p.y == Along(a.y, if a.y < b.y then 1 else -1, j)
    requires 2 * Abs(Drift(Abs(b.x - a.x), Abs(b.y - a.y), i, j)) > Steps(a, b)
    ensures 2 * Abs(Cross(a, b, p)) > Steps(a, b)
  {
    CrossIsDrift(p.x - a.x, p.y - a.y, b.x - a.x, b.y - a.y, Abs(b.x - a.x), Abs(b.y - a.y), i, j);
  }

  /** The first round whose doubled error term wraps leaves the line. */
  lemma WrapLeavesLine(a: Point, b: Point, n: nat)
    requires SidesFit(a, b) && n < Steps(a, b) && Follows(a, b, n) && !In32(2 * ErrAt(a, b, n))
    ensures !OnLine(a, b, Point(Run(a, b, n + 1).x, Run(a, b, n + 1).y), n + 1)
  {
    if Abs(b.x - a.x) >= Abs(b.y - a.y) { LeavesByY(a, b, n); } else { LeavesByX(a, b, n); }
  }

  lemma LeavesByY(a: Point, b: Point, n: nat)
    requires SidesFit(a, b) && n < Abs(b.x - a.x) && Abs(b.x - a.x) >= Abs(b.y - a.y)
    requires Follows(a, b, n) && !In32(2 * ErrAt(a, b, n))
    ensures !OnLine(a, b, Point(Run(a, b, n + 1).x, Run(a, b, n + 1).y), n + 1)
  {
    var dx, dy := Abs(b.x - a.x), Abs(b.y - a.y);
    var j := Moves(dx, dy, n).1;
    MovesTrack(dx, dy, n);
    WrongBranch(a, b, n);
    DriftSteps(dx, dy, n, j);
    NextPlace(a, b, n);
    StrayY(a, b, n, j, MovesX(a, b, Wrap(ErrAt(a, b, n))), Point(Run(a, b, n + 1).x, Run(a, b, n + 1).y));
  }

  lemma LeavesByX(a: Point, b: Point, n: nat)
    requires SidesFit(a, b) && n < Abs(b.y - a.y) && Abs(b.x - a.x) < Abs(b.y - a.y)
    requires Follows(a, b, n) && !In32(2 * ErrAt(a, b, n))
    ensures !OnLine(a, b, Point(Run(a, b, n + 1).x, Run(a, b, n + 1).y), n + 1)
  {
    var dx, dy := Abs(b.x - a.x), Abs(b.y - a.y);
    var i := Moves(dx, dy, n).0;
    MovesTrack(dx, dy, n);
    WrongBranch(a, b, n);
    DriftSteps(dx, dy, i, n);
    NextPlace(a, b, n);
    StrayX(a, b, n, i, MovesY(a, b, Wrap(ErrAt(a, b, n))), Point(Run(a, b, n + 1).x, Run(a, b, n + 1).y));
  }

  /** Where a round that starts on the line goes. */
  lemma NextPlace(a: Point, b: Point, n: nat)
    requires Follows(a, b, n)
    ensures var (i, j) := Moves(Abs(b.x - a.x), Abs(b.y - a.y), n);
            var s := Run(a, b, n + 1);
            && s.x == (var x := Along(a.x, if a.x < b.x then 1 else -1, i);
                       if MovesX(a, b, Wrap(ErrAt(a, b, n))) then Wrap(Toward(a.x, b.x, x)) else x)
            && s.y == (var y := Along(a.y, if a.y < b.y then 1 else -1, j);
                       if MovesY(a, b, Wrap(ErrAt(a, b, n))) then Wrap(Toward(a.y, b.y, y)) else y)
  {
  }

  /** The shorter side is y, and it moves. */
  lemma StrayY(a: Point, b: Point, n: nat, j: nat, right: bool, p: Point)
    requires SidesFit(a, b) && Abs(b.x - a.x) >= Abs(b.y - a.y) && n < Abs(b.x - a.x) && j <= Abs(b.y - a.y)
    requires 2 * Abs(Drift(Abs(b.x - a.x), Abs(b.y - a.y), n + 1, j + 1)) > Steps(a, b)
    requires var x, y := Along(a.x, if a.x < b.x then 1 else -1, n), Along(a.y, if a.y < b.y then 1 else -1, j);
             p.x == (if right then Wrap(Toward(a.x, b.x, x)) else x) && p.y == Wrap(Toward(a.y, b.y, y))
    ensures !OnLine(a, b, p, n + 1)
  {
    StepInside(a.x, b.x, n);
    if right {
      if j == Abs(b.y - a.y) {
        StepOutside(a.y, b.y);
      } else {
        StepInside(a.y, b.y, j);
        StrayCross(a, b, p, n + 1, j + 1);
      }
    }
  }

  /** The shorter side is x, and it moves. */
  lemma StrayX(a: Point, b: Point, n: nat, i: nat, down: bool, p: Point)
    requires SidesFit(a, b) && Abs(b.x - a.x) < Abs(b.y - a.y) && n < Abs(b.y - a.y) && i <= Abs(b.x - a.x)
    requires 2 * Abs(Drift(Abs(b.x - a.x), Abs(b.y - a.y), i + 1, n + 1)) > Steps(a, b)
    requires var x, y := Along(a.x, if a.x < b.x then 1 else -1, i), Along(a.y, if a.y < b.y then 1 else -1, n);
             p.x == Wrap(Toward(a.x, b.x, x)) && p.y == if down then Wrap(Toward(a.y, b.y, y)) else y
    ensures !OnLine(a, b, p, n + 1)
  {
    StepInside(a.y, b.y, n);
    if down {
      if i == Abs(b.x - a.x) {
        StepOutside(a.x, b.x);
      } else {
        StepInside(a.x, b.x, i);
        StrayCross(a, b, p, i + 1, n + 1);
      }
    }
  }

  // ---- Exactly the lines drawn right ----

  /** The run meets the end point in the last round and in no other. */
  ghost predicate EndsOnce(a: Point, b: Point) {
    forall n :: 0 <= n <= Steps(a, b) ==> (Run(a, b, n).x == b.x && Run(a, b, n).y == b.y <==> n == Steps(a, b))
  }

  lemma {:induction false} FirstWrap(a: Point, b: Point, m: nat) returns (n: nat)
    requires !In32(2 * ErrAt(a, b, m))
    ensures n <= m && !In32(2 * ErrAt(a, b, n)) && forall k :: 0 <= k < n ==> In32(2 * ErrAt(a, b, k))
  {
    n := 0;
    while In32(2 * ErrAt(a, b, n))
      invariant n <= m && forall k :: 0 <= k < n ==> In32(2 * ErrAt(a, b, k))
      decreases m - n
    {
      n := n + 1;
    }
  }

  /** Within the bound the run in 32-bit arithmetic plots exactly the points of the line. */
  lemma FitsDraws(a: Point, b: Point)
    requires SidesFit(a, b) && Fits(a, b)
    ensures Draws(a, b, Plotted(a, b, Steps(a, b) + 1)) && EndsOnce(a, b)
  {
    forall n | 0 <= n <= Steps(a, b)
      ensures Follows(a, b, n)
      ensures OnLine(a, b, Point(Run(a, b, n).x, Run(a, b, n).y), n)
      ensures Run(a, b, n).x == b.x && Run(a, b, n).y == b.y <==> n == Steps(a, b)
    {
      forall k | 0 <= k < n
        ensures In32(2 * ErrAt(a, b, k))
      {
        ErrFits(a, b, k);
      }
      RunFollows(a, b, n);
      SpotFacts(a, b, n);
    }
    FirstRound(a, b);
  }

  /** Beyond the bound it leaves the line. */
  lemma BeyondStrays(a: Point, b: Point)
    requires SidesFit(a, b) && !Fits(a, b)
    ensures !Draws(a, b, Plotted(a, b, Steps(a, b) + 1))
  {
    var m := WorstRound(a, b);
    DriftHalf(a, b, m);
    var n := FirstWrap(a, b, m);
    RunFollows(a, b, n);
    WrapLeavesLine(a, b, n);
    assert Plotted(a, b, Steps(a, b) + 1)[n + 1] == Point(Run(a, b, n + 1).x, Run(a, b, n + 1).y);
  }

  /** For every line whose sides fit 32 bits: the run in 32-bit arithmetic draws the line if and only if twice the
      error term fits too. */
  lemma DrawsIffFits(a: Point, b: Point)
    requires SidesFit(a, b)
    ensures Draws(a, b, Plotted(a, b, Steps(a, b) + 1)) <==> Fits(a, b)
  {
    if Fits(a, b) { FitsDraws(a, b); } else { BeyondStrays(a, b); }
  }

  // ---- Sides that do not fit ----

  /** A horizontal line from end to end of the 32-bit range, whose longer side wraps to one, is drawn right all the
      same: for lines whose sides do not fit, neither is `Fits` the rule nor is every line drawn wrong. */
  lemma WideLineDrawn(a: Point, b: Point)
    requires a.x == -0x8000_0000 && b.x == 0x7FFF_FFFF && a.y == b.y
    ensures !SidesFit(a, b) && Draws(a, b, Plotted(a, b, Steps(a, b) + 1))
  {
    var line := Plotted(a, b, Steps(a, b) + 1);
    forall n | 0 <= n <= Steps(a, b)
      ensures line[n] == Point(a.x + n, a.y) && OnLine(a, b, line[n], n)
    {
      WideRun(a, b, n);
      LevelOnLine(a, b, n);
    }
  }

  lemma LevelOnLine(a: Point, b: Point, n: nat)
    requires a.y == b.y && n <= b.x - a.x
    ensures OnLine(a, b, Point(a.x + n, a.y), n)
  {
    assert Cross(a, b, Point(a.x + n, a.y)) == n * 0 - 0 * (b.x - a.x);
  }

  lemma WideSides(a: Point, b: Point)
    requires a.x == -0x8000_0000 && b.x == 0x7FFF_FFFF && a.y == b.y
    ensures Side(a.x, b.x) == 1 && Minus(Side(a.y, b.y)) == 0
  {
    WrapIs(b.x - a.x, -1, 1);
  }

  lemma {:induction false} WideRun(a: Point, b: Point, n: nat)
    requires a.x == -0x8000_0000 && b.x == 0x7FFF_FFFF && a.y == b.y && n <= 0xFFFF_FFFF
    ensures Run(a, b, n) == State(a.x + n, a.y, 1)
  {
    WideSides(a, b);
    if n > 0 {
      WideRun(a, b, n - 1);
      WideRound(a, b, Run(a, b, n - 1));
    }
  }

  lemma WideRound(a: Point, b: Point, s: State)
    requires a.x < b.x && s.err == 1 && s.x < 0x7FFF_FFFF
    ensures RoundBy(1, 0, a, b, s) == State(s.x + 1, s.y, 1)
  {
    WrapSmall(2 * s.err);
    WrapSmall(s.err + 0);
    WrapSmall(s.x + 1);
  }
}
