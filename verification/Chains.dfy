/** Walking a chain of numbered cells, each holding items and naming the next: what the walk collects, and when
    it ends. */
module Chains {
  import opened Common

  /** What a cell holds, and where the walk goes from it (None when it ends there). */
  datatype Visit<R> = Visit(items: seq<R>, next: Option<nat>)

  type Cells<!R> = nat -> Visit<R>

  /** The items met in at most `n` cells from `c` on, and whether the walk has ended by then. */
  function Walk<R>(cells: Cells<R>, c: Option<nat>, n: nat): (seq<R>, bool)
    decreases n
  {
    if c.None? then ([], true)
    else if n == 0 then ([], false)
    else
      var (rest, end) := Walk(cells, cells(c.value).next, n - 1);
      (cells(c.value).items + rest, end)
  }

  ghost predicate Terminates<R>(cells: Cells<R>, c: Option<nat>) {
    exists n: nat :: Walk(cells, c, n).1
  }

  lemma {:induction false} WalkStable<R>(cells: Cells<R>, c: Option<nat>, m: nat, n: nat)
    requires Walk(cells, c, m).1 && m <= n
    ensures Walk(cells, c, n) == Walk(cells, c, m)
    decreases m
  {
    if c.Some? && m > 0 {
      WalkStable(cells, cells(c.value).next, m - 1, n - 1);
    }
  }

  /** Everything the walk collects. */
  ghost function Items<R>(cells: Cells<R>, c: Option<nat>): seq<R>
    requires Terminates(cells, c)
  {
    var n: nat :| Walk(cells, c, n).1;
    Walk(cells, c, n).0
  }

  lemma ItemsAre<R>(cells: Cells<R>, c: Option<nat>, n: nat)
    requires Walk(cells, c, n).1
    ensures Terminates(cells, c) && Items(cells, c) == Walk(cells, c, n).0
  {
    var m: nat :| Walk(cells, c, m).1 && Items(cells, c) == Walk(cells, c, m).0;
    if m <= n { WalkStable(cells, c, m, n); } else { WalkStable(cells, c, n, m); }
  }

  // ---- Looking for one item ----

  /** A search for item `index` comes back: within finitely many cells it is found or the walk ends. */
  ghost predicate Answers<R>(cells: Cells<R>, c: Option<nat>, index: nat) {
    exists n: nat :: Settles(cells, c, index, n)
  }

  predicate Settles<R>(cells: Cells<R>, c: Option<nat>, index: nat, n: nat) {
    Walk(cells, c, n).1 || index < |Walk(cells, c, n).0|
  }

  function Pick<R>(items: seq<R>, index: nat): Option<R> {
    if index < |items| then Some(items[index]) else None
  }

  /** What the search finds. */
  ghost function Entry<R>(cells: Cells<R>, c: Option<nat>, index: nat): Option<R>
    requires Answers(cells, c, index)
  {
    var n: nat :| Settles(cells, c, index, n);
    Pick(Walk(cells, c, n).0, index)
  }

  lemma {:induction false} WalkGrows<R>(cells: Cells<R>, c: Option<nat>, m: nat, n: nat)
    requires m <= n
    ensures Walk(cells, c, m).0 <= Walk(cells, c, n).0
    decreases m
  {
    if c.Some? && m > 0 {
      WalkGrows(cells, cells(c.value).next, m - 1, n - 1);
    }
  }

  lemma EntryIs<R>(cells: Cells<R>, c: Option<nat>, index: nat, n: nat)
    requires Settles(cells, c, index, n)
    ensures Answers(cells, c, index) && Entry(cells, c, index) == Pick(Walk(cells, c, n).0, index)
  {
    var m: nat :| Settles(cells, c, index, m) && Entry(cells, c, index) == Pick(Walk(cells, c, m).0, index);
    SameAnswer(cells, c, index, m, n);
    SameAnswer(cells, c, index, n, m);
  }

  lemma SameAnswer<R>(cells: Cells<R>, c: Option<nat>, index: nat, m: nat, n: nat)
    requires Settles(cells, c, index, m)
    ensures m <= n ==> Pick(Walk(cells, c, n).0, index) == Pick(Walk(cells, c, m).0, index)
  {
    if m <= n {
      WalkGrows(cells, c, m, n);
      if Walk(cells, c, m).1 { WalkStable(cells, c, m, n); }
    }
  }

  /** Where the walk ends, every search comes back with what the walk collects. */
  lemma EndedAnswers<R>(cells: Cells<R>, c: Option<nat>, index: nat)
    requires Terminates(cells, c)
    ensures Answers(cells, c, index) && Entry(cells, c, index) == Pick(Items(cells, c), index)
  {
    var n: nat :| Walk(cells, c, n).1;
    assert Settles(cells, c, index, n);
    EntryIs(cells, c, index, n);
    ItemsAre(cells, c, n);
  }

  // ---- When the walk ends ----

  /** The n-th cell visited, if the walk gets that far. */
  function Visited<R>(cells: Cells<R>, c: Option<nat>, n: nat): Option<nat>
    decreases n
  {
    if n == 0 then c
    else
      match Visited(cells, c, n - 1)
      case None => None
      case Some(x) => cells(x).next
  }

  lemma {:induction false} WalkEnds<R>(cells: Cells<R>, c: Option<nat>, k: nat, n: nat)
    ensures Walk(cells, Visited(cells, c, k), n).1 <==> Visited(cells, c, k + n).None?
    decreases n
  {
    if n == 0 {
    } else if Visited(cells, c, k).None? {
      StaysEnded(cells, c, k, k + n);
    } else {
      WalkEnds(cells, c, k + 1, n - 1);
      assert Visited(cells, c, k + 1) == cells(Visited(cells, c, k).value).next;
    }
  }

  lemma {:induction false} StaysEnded<R>(cells: Cells<R>, c: Option<nat>, m: nat, n: nat)
    requires Visited(cells, c, m).None? && m <= n
    ensures Visited(cells, c, n).None?
    decreases n
  {
    if m < n { StaysEnded(cells, c, m, n - 1); }
  }

  /** The walk comes back to a cell it has visited. */
  ghost predicate Cyclic<R>(cells: Cells<R>, c: Option<nat>) {
    exists i: nat, j: nat :: i < j && Visited(cells, c, i).Some? && Visited(cells, c, i) == Visited(cells, c, j)
  }

  lemma {:induction false} CycleRepeats<R>(cells: Cells<R>, c: Option<nat>, i: nat, j: nat, k: nat)
    requires Visited(cells, c, i) == Visited(cells, c, j)
    ensures Visited(cells, c, i + k) == Visited(cells, c, j + k)
    decreases k
  {
    if k > 0 {
      CycleRepeats(cells, c, i, j, k - 1);
      VisitedNext(cells, c, i + k - 1);
      VisitedNext(cells, c, j + k - 1);
    }
  }

  lemma VisitedNext<R>(cells: Cells<R>, c: Option<nat>, n: nat)
    ensures Visited(cells, c, n + 1) == (match Visited(cells, c, n) case None => None case Some(x) => cells(x).next)
  {
  }

  /** Going round a cycle never ends. */
  lemma {:induction false} CycleForever<R>(cells: Cells<R>, c: Option<nat>, i: nat, j: nat, n: nat)
    requires i < j && Visited(cells, c, i).Some? && Visited(cells, c, i) == Visited(cells, c, j)
    ensures Visited(cells, c, n).Some?
    decreases n
  {
    if n <= j {
      if Visited(cells, c, n).None? { StaysEnded(cells, c, n, j); }
    } else {
      CycleForever(cells, c, i, j, n - (j - i));
      CycleRepeats(cells, c, i, j, n - j);
    }
  }

  /** A set of numbers below a limit is no larger than the limit. */
  lemma {:induction false} Pigeonhole(s: set<nat>, limit: nat)
    requires forall x :: x in s ==> x < limit
    ensures |s| <= limit
  {
    if limit == 0 {
      assert s == {};
    } else {
      var t := s - {limit - 1};
      Pigeonhole(t, limit - 1);
      assert |s| <= |t| + 1;
    }
  }

  /** Cell `x` is among the first `n` visited. */
  ghost predicate Seen<R>(cells: Cells<R>, c: Option<nat>, n: nat, x: nat) {
    exists k: nat :: k < n && Visited(cells, c, k) == Some(x)
  }

  /** The cells visited in the first `n` steps of a walk that never comes back. */
  lemma {:induction false} VisitedSet<R>(cells: Cells<R>, c: Option<nat>, limit: nat, n: nat) returns (s: set<nat>)
    requires !Cyclic(cells, c)
    requires forall k: nat :: k < n ==> Visited(cells, c, k).Some? && Visited(cells, c, k).value < limit
    ensures |s| == n && forall x :: x in s ==> x < limit && Seen(cells, c, n, x)
    decreases n
  {
    s := {};
    if n > 0 {
      var t := VisitedSet(cells, c, limit, n - 1);
      var x := Visited(cells, c, n - 1).value;
      assert x !in t;
      s := t + {x};
      assert Seen(cells, c, n, x);
    }
  }

  predicate Bounded(c: Option<nat>, limit: nat) {
    c.Some? ==> c.value < limit
  }

  lemma {:induction false} VisitedBounded<R>(cells: Cells<R>, c: Option<nat>, limit: nat, n: nat)
    requires Bounded(c, limit) && forall x :: Bounded(cells(x).next, limit)
    ensures Bounded(Visited(cells, c, n), limit)
    decreases n
  {
  }

  /** Over finitely many cells, the walk ends if and only if it never comes back to a visited cell. */
  lemma EndsIffAcyclic<R>(cells: Cells<R>, c: Option<nat>, limit: nat)
    requires Bounded(c, limit) && forall x :: Bounded(cells(x).next, limit)
    ensures Terminates(cells, c) <==> !Cyclic(cells, c)
  {
    forall n: nat
      ensures Walk(cells, c, n).1 <==> Visited(cells, c, n).None?
      ensures Bounded(Visited(cells, c, n), limit)
    {
      assert Visited(cells, c, 0) == c;
      WalkEnds(cells, c, 0, n);
      VisitedBounded(cells, c, limit, n);
    }
    if Cyclic(cells, c) {
      var i: nat, j: nat :| i < j && Visited(cells, c, i).Some? && Visited(cells, c, i) == Visited(cells, c, j);
      forall n: nat
        ensures Visited(cells, c, n).Some?
      {
        CycleForever(cells, c, i, j, n);
      }
    } else if forall n: nat :: Visited(cells, c, n).Some? {
      var s := VisitedSet(cells, c, limit, limit + 1);
      Pigeonhole(s, limit);
    }
  }
}
