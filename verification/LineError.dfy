/** The error arithmetic behind `draw_line` of kernel/src/gui/framebuffer.rs. Module `Bresenham` holds the
    algorithm itself. */
module LineError {
  import opened Common

  type i32 = x: int | -0x8000_0000 <= x < 0x8000_0000

  predicate In32(x: int) {
    -0x8000_0000 <= x < 0x8000_0000
  }

  datatype Point = Point(x: i32, y: i32)

  function Abs(x: int): nat {
    if x < 0 then -x else x
  }

  function Max(a: nat, b: nat): nat {
    if a >= b then a else b
  }

  /** The number of steps along the longer side. */
  function Steps(a: Point, b: Point): nat {
    Max(Abs(b.x - a.x), Abs(b.y - a.y))
  }

  predicate Between(a: int, x: int, b: int) {
    a <= x <= b || b <= x <= a
  }

  predicate InBox(a: Point, b: Point, p: Point) {
    Between(a.x, p.x, b.x) && Between(a.y, p.y, b.y)
  }

  /** How far `p` is off the ideal line from `a` to `b`: measured along the minor axis, the distance is this
      over the longer side. */
  function Cross(a: Point, b: Point, p: Point): int {
    (p.x - a.x) * (b.y - a.y) - (p.y - a.y) * (b.x - a.x)
  }

  /** Step `k` of the line: k along the longer side, inside the endpoints' box, at most half a pixel off. */
  predicate OnLine(a: Point, b: Point, p: Point, k: nat) {
    && (if Abs(b.x - a.x) >= Abs(b.y - a.y) then Abs(p.x - a.x) == k else Abs(p.y - a.y) == k)
    && InBox(a, b, p)
    && 2 * Abs(Cross(a, b, p)) <= Steps(a, b)
  }

  /** A line as it should be: from `a` to `b`, one point for each step of the longer side and one more. */
  predicate Draws(a: Point, b: Point, line: seq<Point>) {
    && |line| == Steps(a, b) + 1 && line[0] == a && line[Steps(a, b)] == b
    && forall k :: 0 <= k < |line| ==> OnLine(a, b, line[k], k)
  }

  // ---- The error term ----

  /** The error after `i` steps of x and `j` steps of y. */
  function Drift(dx: nat, dy: nat, i: nat, j: nat): int {
    j * dx - i * dy
  }

  /** The drift is within half of the longer side. When it is exactly half, its sign is known. */
  predicate Half(dx: nat, dy: nat, d: int) {
    if dx >= dy then 2 * d <= dx && (d == 0 || 0 < 2 * d + dx) else 0 <= 2 * d + dy && 2 * d < dy
  }

  /** After `n` rounds, `i` of them moving x and `j` moving y, the longer side has moved every time and the
      drift is within half of it. */
  predicate Tracks(dx: nat, dy: nat, i: nat, j: nat, d: int, n: nat) {
    && i <= dx && j <= dy
    && (if dx >= dy then i == n else j == n)
    && Half(dx, dy, d)
  }

  lemma DriftSteps(dx: nat, dy: nat, i: nat, j: nat)
    ensures Drift(dx, dy, i + 1, j) == Drift(dx, dy, i, j) - dy
    ensures Drift(dx, dy, i, j + 1) == Drift(dx, dy, i, j) + dx
    ensures Drift(dx, dy, i + 1, j + 1) == Drift(dx, dy, i, j) - dy + dx
    ensures Drift(dy, dx, j, i) == -Drift(dx, dy, i, j)
  {
  }

  lemma Product(i: nat, j: nat, m: nat)
    requires i <= j
    ensures i * m <= j * m
  {
  }

  /** While the drift is within half the longer side, the shorter side does not run past its end. */
  lemma InsideBox(dx: nat, dy: nat, i: nat, j: nat)
    requires 0 < dx && i <= dx && 2 * Drift(dx, dy, i, j) <= dx
    ensures j <= dy
  {
    Product(i, dx, dy);
    MultipleIsFar(j - dy, dx);
    assert (j - dy) * dx == j * dx - dx * dy;
  }

  /** At the end of the longer side the shorter one has ended too. */
  lemma EndTogether(dx: nat, dy: nat, j: nat)
    requires 0 < dx && 2 * Abs(Drift(dx, dy, dx, j)) <= dx
    ensures j == dy
  {
    MultipleIsFar(j - dy, dx);
    assert (j - dy) * dx == j * dx - dx * dy;
  }

  /** One round keeps the drift within bounds: pure error arithmetic. */
  lemma HalfError(dx: nat, dy: nat, d: int)
    requires Half(dx, dy, d)
    ensures var e2 := 2 * (d + dx - dy);
            var d' := d - (if e2 + dy >= 0 then dy else 0) + (if e2 <= dx then dx else 0);
            && Half(dx, dy, d')
            && (dx >= dy ==> e2 + dy >= 0)
            && (dx < dy ==> e2 <= dx)
  {
  }

  lemma NextTracks(dx: nat, dy: nat, i: nat, j: nat, n: nat)
    requires Tracks(dx, dy, i, j, Drift(dx, dy, i, j), n) && n < Max(dx, dy)
    ensures var e2 := 2 * (Drift(dx, dy, i, j) + dx - dy);
            var i', j' := if e2 + dy >= 0 then i + 1 else i, if e2 <= dx then j + 1 else j;
            Tracks(dx, dy, i', j', Drift(dx, dy, i', j'), n + 1)
  {
    var e2 := 2 * (Drift(dx, dy, i, j) + dx - dy);
    var i', j' := if e2 + dy >= 0 then i + 1 else i, if e2 <= dx then j + 1 else j;
    DriftSteps(dx, dy, i, j);
    HalfError(dx, dy, Drift(dx, dy, i, j));
    assert Half(dx, dy, Drift(dx, dy, i', j'));
    if dx >= dy {
      InsideBox(dx, dy, i', j');
    } else {
      DriftSteps(dx, dy, i', j');
      InsideBox(dy, dx, j', i');
    }
  }

  lemma Finished(dx: nat, dy: nat, i: nat, j: nat, n: nat)
    requires Tracks(dx, dy, i, j, Drift(dx, dy, i, j), n)
    ensures n <= Max(dx, dy)
    ensures n == Max(dx, dy) <==> i == dx && j == dy
  {
    if dx >= dy {
      if n == dx && dx > 0 { EndTogether(dx, dy, j); }
    } else if n == dy {
      DriftSteps(dx, dy, i, j);
      EndTogether(dy, dx, i);
    }
  }

  /** `i` steps from `from` in direction `s`. */
  function Along(from: int, s: int, i: nat): int {
    if s == 1 then from + i else from - i
  }

  /** One step of a coordinate that runs from `from` to `to`. */
  function Toward(from: int, to: int, at: int): int {
    if from < to then at + 1 else at - 1
  }

  lemma CrossIsDrift(u: int, v: int, w: int, h: int, dx: nat, dy: nat, i: nat, j: nat)
    requires (u == i && w == dx) || (u + i == 0 && w + dx == 0)
    requires (v == j && h == dy) || (v + j == 0 && h + dy == 0)
    ensures Abs(u * h - v * w) == Abs(Drift(dx, dy, i, j))
  {
  }

  lemma TracksOnLine(a: Point, b: Point, p: Point, sx: int, sy: int, i: nat, j: nat, n: nat)
    requires sx == (if a.x < b.x then 1 else -1) && sy == (if a.y < b.y then 1 else -1)
    requires p.x == Along(a.x, sx, i) && p.y == Along(a.y, sy, j)
    requires var dx, dy := Abs(b.x - a.x), Abs(b.y - a.y); Tracks(dx, dy, i, j, Drift(dx, dy, i, j), n)
    ensures OnLine(a, b, p, n)
  {
    CrossIsDrift(p.x - a.x, p.y - a.y, b.x - a.x, b.y - a.y, Abs(b.x - a.x), Abs(b.y - a.y), i, j);
    HalfSmall(Abs(b.x - a.x), Abs(b.y - a.y), Drift(Abs(b.x - a.x), Abs(b.y - a.y), i, j));
  }

  lemma HalfSmall(dx: nat, dy: nat, d: int)
    requires Half(dx, dy, d)
    ensures 2 * Abs(d) <= Max(dx, dy)
  {
  }

  /** The loop state after `n` rounds: where the point is and what `err` holds. */
  predicate AtRound(a: Point, b: Point, x: int, y: int, err: int, i: nat, j: nat, n: nat) {
    var dx, dy := Abs(b.x - a.x), Abs(b.y - a.y);
    && Tracks(dx, dy, i, j, Drift(dx, dy, i, j), n)
    && x == Along(a.x, if a.x < b.x then 1 else -1, i)
    && y == Along(a.y, if a.y < b.y then 1 else -1, j)
    && err == Drift(dx, dy, i, j) + dx - dy
  }

  /** The moves of x and y in the first `n` rounds, in exact arithmetic. */
  function Moves(dx: nat, dy: nat, n: nat): (nat, nat) {
    if n == 0 then (0, 0)
    else
      var (i, j) := Moves(dx, dy, n - 1);
      var e2 := 2 * (Drift(dx, dy, i, j) + dx - dy);
      (if e2 + dy >= 0 then i + 1 else i, if e2 <= dx then j + 1 else j)
  }

  /** The point and the error term after `n` rounds. */
  function SpotX(a: Point, b: Point, n: nat): int {
    Along(a.x, if a.x < b.x then 1 else -1, Moves(Abs(b.x - a.x), Abs(b.y - a.y), n).0)
  }

  function SpotY(a: Point, b: Point, n: nat): int {
    Along(a.y, if a.y < b.y then 1 else -1, Moves(Abs(b.x - a.x), Abs(b.y - a.y), n).1)
  }

  function ErrAt(a: Point, b: Point, n: nat): int {
    var dx, dy := Abs(b.x - a.x), Abs(b.y - a.y);
    Drift(dx, dy, Moves(dx, dy, n).0, Moves(dx, dy, n).1) + dx - dy
  }

  lemma FirstRound(a: Point, b: Point)
    ensures SpotX(a, b, 0) == a.x && SpotY(a, b, 0) == a.y && ErrAt(a, b, 0) == Abs(b.x - a.x) - Abs(b.y - a.y)
  {
  }

  /** One round in exact arithmetic. */
  lemma NextRound(a: Point, b: Point, n: nat)
    ensures var dx, dy, err := Abs(b.x - a.x), Abs(b.y - a.y), ErrAt(a, b, n);
            && ErrAt(a, b, n + 1) == err - (if 2 * err + dy >= 0 then dy else 0) + (if 2 * err <= dx then dx else 0)
            && SpotX(a, b, n + 1) == (if 2 * err + dy >= 0 then Toward(a.x, b.x, SpotX(a, b, n)) else SpotX(a, b, n))
            && SpotY(a, b, n + 1) == (if 2 * err <= dx then Toward(a.y, b.y, SpotY(a, b, n)) else SpotY(a, b, n))
  {
    var dx, dy := Abs(b.x - a.x), Abs(b.y - a.y);
    DriftSteps(dx, dy, Moves(dx, dy, n).0, Moves(dx, dy, n).1);
  }

  lemma {:induction false} MovesTrack(dx: nat, dy: nat, n: nat)
    requires n <= Max(dx, dy)
    ensures var moves := Moves(dx, dy, n); Tracks(dx, dy, moves.0, moves.1, Drift(dx, dy, moves.0, moves.1), n)
  {
    if n > 0 {
      var (i, j) := Moves(dx, dy, n - 1);
      MovesTrack(dx, dy, n - 1);
      NextTracks(dx, dy, i, j, n - 1);
    }
  }

  lemma RoundHolds(a: Point, b: Point, n: nat)
    requires n <= Steps(a, b)
    ensures var moves := Moves(Abs(b.x - a.x), Abs(b.y - a.y), n);
            AtRound(a, b, SpotX(a, b, n), SpotY(a, b, n), ErrAt(a, b, n), moves.0, moves.1, n)
  {
    MovesTrack(Abs(b.x - a.x), Abs(b.y - a.y), n);
  }

  /** Every point of the line is on it, and the last is the first to be `b`. */
  lemma SpotFacts(a: Point, b: Point, n: nat)
    requires n <= Steps(a, b)
    ensures In32(SpotX(a, b, n)) && In32(SpotY(a, b, n))
    ensures OnLine(a, b, Point(SpotX(a, b, n), SpotY(a, b, n)), n)
    ensures n == Steps(a, b) <==> SpotX(a, b, n) == b.x && SpotY(a, b, n) == b.y
  {
    var (i, j) := Moves(Abs(b.x - a.x), Abs(b.y - a.y), n);
    RoundHolds(a, b, n);
    InBetween(a.x, b.x, i);
    InBetween(a.y, b.y, j);
    PlotFacts(a, b, SpotX(a, b, n), SpotY(a, b, n), ErrAt(a, b, n), i, j, n);
  }

  lemma InBetween(from: int, to: int, i: nat)
    requires i <= Abs(to - from)
    ensures Between(from, Along(from, if from < to then 1 else -1, i), to)
  {
  }

  /** The points of the first `n` rounds. */
  function Spots(a: Point, b: Point, n: nat): (s: seq<Point>)
    requires n <= Steps(a, b) + 1
    ensures |s| == n
  {
    if n == 0 then []
    else
      SpotFacts(a, b, n - 1);
      Spots(a, b, n - 1) + [Point(SpotX(a, b, n - 1), SpotY(a, b, n - 1))]
  }

  lemma {:induction false} SpotsAt(a: Point, b: Point, n: nat, k: nat)
    requires k < n <= Steps(a, b) + 1
    ensures Spots(a, b, n)[k].x == SpotX(a, b, k) && Spots(a, b, n)[k].y == SpotY(a, b, k)
  {
    if k < n - 1 { SpotsAt(a, b, n - 1, k); }
  }

  /** All rounds together draw the line. */
  lemma SpotsDraw(a: Point, b: Point)
    ensures Draws(a, b, Spots(a, b, Steps(a, b) + 1))
  {
    var line := Spots(a, b, Steps(a, b) + 1);
    forall k | 0 <= k < |line|
      ensures OnLine(a, b, line[k], k)
    {
      SpotsAt(a, b, |line|, k);
      SpotFacts(a, b, k);
    }
    SpotsAt(a, b, |line|, 0);
    SpotsAt(a, b, |line|, Steps(a, b));
    SpotFacts(a, b, Steps(a, b));
  }

  /** The point about to be plotted is on the line, and it is the last exactly when the longer side ends. */
  lemma PlotFacts(a: Point, b: Point, x: i32, y: i32, err: int, i: nat, j: nat, n: nat)
    requires AtRound(a, b, x, y, err, i, j, n)
    ensures OnLine(a, b, Point(x, y), n) && n <= Steps(a, b)
    ensures n == Steps(a, b) <==> x == b.x && y == b.y
    ensures i == 0 && j == 0 ==> x == a.x && y == a.y
  {
    TracksOnLine(a, b, Point(x, y), if a.x < b.x then 1 else -1, if a.y < b.y then 1 else -1, i, j, n);
    Finished(Abs(b.x - a.x), Abs(b.y - a.y), i, j, n);
  }
}
