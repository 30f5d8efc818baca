/** What the physical page allocator of kernel/src/mm/pmm.rs does to the page table, the free list and the
    counters, and what follows for every run. Module `Pmm` holds the allocator itself. */
module Pages {
  import opened Common

  const PAGE_SIZE := 4096
  const MAX_PAGE_FRAMES := 65536

  const FREE: bv16 := 1
  const RESERVED: bv16 := 2
  const KERNEL: bv16 := 4


  datatype PmmState = PmmState(
    ready: bool,          // FREE_LIST is Some
    free: seq<nat>,       // page numbers on the free list, head first
    flags: seq<bv16>,
    refs: seq<nat>,
    freePages: nat,
    kernelPages: nat,
    totalPages: nat)

  predicate IsFree(flags: bv16) {
    flags & FREE == FREE
  }

  // ---- What the operations do ----

  function Alloc(s: PmmState): (PmmState, Option<nat>)
    requires WellFormed(s)
  {
    if s.free == [] then (s, None)
    else
      var i := s.free[0];
      (s.(free := s.free[1..], flags := s.flags[i := s.flags[i] & !FREE], refs := s.refs[i := 1],
          freePages := s.freePages - 1),
       Some(i * PAGE_SIZE))
  }

  function Free(s: PmmState, addr: nat): PmmState
    requires WellFormed(s)
  {
    var i := addr / PAGE_SIZE;
    if i >= MAX_PAGE_FRAMES || IsFree(s.flags[i]) then s
    else
      s.(free := if s.ready then [i] + s.free else s.free,
         flags := s.flags[i := s.flags[i] | FREE], refs := s.refs[i := 0],
         freePages := s.freePages + 1)
  }

  /** Before `init` there is no list; after it, the list holds exactly the frames flagged FREE, once
      each, and the counter is its length. */
  predicate WellFormed(s: PmmState) {
    && |s.flags| == |s.refs| == MAX_PAGE_FRAMES
    && (forall k :: 0 <= k < |s.free| ==> s.free[k] < MAX_PAGE_FRAMES)
    && (forall j, k :: 0 <= j < k < |s.free| ==> s.free[j] != s.free[k])
    && (s.ready ==>
          && s.freePages == |s.free|
          && (forall i :: 0 <= i < MAX_PAGE_FRAMES ==> (i in s.free <==> IsFree(s.flags[i])))
          && (forall i :: 0 <= i < MAX_PAGE_FRAMES && IsFree(s.flags[i]) ==> s.refs[i] == 0))
    && (!s.ready ==> s.free == [])
  }

  // ---- One step ----

  lemma AllocKeeps(s: PmmState)
    requires WellFormed(s)
    ensures WellFormed(Alloc(s).0) && Alloc(s).0.ready == s.ready
    ensures s.ready ==> (Alloc(s).1 == None <==> s.freePages == 0)
    ensures Alloc(s).1.Some? ==>
              var i := s.free[0];
              && Alloc(s).1.value == i * PAGE_SIZE && i in s.free && i !in Alloc(s).0.free
              && forall j :: j in Alloc(s).0.free <==> j in s.free && j != i
  {
  }

  /** `free_page` keeps the list exact for every address, whether or not it was ever allocated. */
  lemma FreeKeeps(s: PmmState, addr: nat)
    requires WellFormed(s)
    ensures WellFormed(Free(s, addr)) && Free(s, addr).ready == s.ready
  {
  }

  /** Freeing the page a second time changes nothing. */
  lemma DoubleFree(s: PmmState, addr: nat)
    requires WellFormed(s)
    ensures WellFormed(Free(s, addr))
    ensures Free(Free(s, addr), addr) == Free(s, addr)
  {
  }

  /** Giving back the page just allocated restores the whole state, list order included. */
  lemma AllocThenFree(s: PmmState)
    requires WellFormed(s) && s.ready && s.free != []
    ensures WellFormed(Alloc(s).0)
    ensures Free(Alloc(s).0, Alloc(s).1.value) == s
  {
  }

  /** What an allocation marks: its own frame, no longer free, with one reference, its other flags kept; and its
      address, 4096 bytes a page. */
  lemma AllocMarks(s: PmmState)
    requires WellFormed(s) && s.ready && s.free != []
    ensures var (t, r), i := Alloc(s), s.free[0];
            && r == Some(4096 * i) && !IsFree(t.flags[i]) && t.flags[i] & !FREE == s.flags[i] & !FREE && t.refs[i] == 1
            && (forall j :: 0 <= j < MAX_PAGE_FRAMES && j != i ==> t.flags[j] == s.flags[j] && t.refs[j] == s.refs[j])
            && t.freePages == s.freePages - 1
  {
  }

  /** What `free_page` marks: the frame of the page that the address lies in, now free, without references. The next
      allocation is of that page. */
  lemma FreeMarks(s: PmmState, i: nat, offset: nat)
    requires WellFormed(s) && s.ready && i < 65536 && offset < 4096 && i !in s.free
    ensures var t := Free(s, 4096 * i + offset);
            && IsFree(t.flags[i]) && t.flags[i] & !FREE == s.flags[i] & !FREE && t.refs[i] == 0
            && (forall j :: 0 <= j < MAX_PAGE_FRAMES && j != i ==> t.flags[j] == s.flags[j] && t.refs[j] == s.refs[j])
            && t.freePages == s.freePages + 1 && Alloc(t).1 == Some(4096 * i)
  {
    assert (4096 * i + offset) / PAGE_SIZE == i;
    FreeKeeps(s, 4096 * i + offset);
  }

  // ---- Runs ----

  /** `FreeLive(k)` gives back the k-th live allocation, `FreeAny` passes an arbitrary address. */
  datatype Op = AllocOp | FreeLive(k: nat) | FreeAny(addr: nat)

  datatype Trace = Trace(mem: PmmState, live: seq<nat>)

  function Step(t: Trace, op: Op): Trace
    requires WellFormed(t.mem)
  {
    match op
    case AllocOp =>
      var (mem, r) := Alloc(t.mem);
      Trace(mem, if r.Some? then t.live + [r.value] else t.live)
    case FreeLive(k) =>
      if k < |t.live| then Trace(Free(t.mem, t.live[k]), t.live[..k] + t.live[k + 1..]) else t
    case FreeAny(addr) => Trace(Free(t.mem, addr), t.live)
  }

  ghost predicate Reaches(t: Trace, ops: seq<Op>, end: Trace)
    decreases |ops|
  {
    WellFormed(t.mem) && if ops == [] then t == end else Reaches(Step(t, ops[0]), ops[1..], end)
  }

  /** No two live allocations share a page, and no live page is on the free list. */
  predicate Disjoint(t: Trace) {
    && (forall k :: 0 <= k < |t.live| ==>
          t.live[k] % PAGE_SIZE == 0 && t.live[k] / PAGE_SIZE < MAX_PAGE_FRAMES
          && t.live[k] / PAGE_SIZE !in t.mem.free)
    && (forall j, k :: 0 <= j < k < |t.live| ==> t.live[j] / PAGE_SIZE != t.live[k] / PAGE_SIZE)
  }

  lemma StepSafe(t: Trace, op: Op)
    requires WellFormed(t.mem) && t.mem.ready && Disjoint(t) && !op.FreeAny?
    ensures var u := Step(t, op);
            && WellFormed(u.mem) && u.mem.ready && Disjoint(u)
            && u.mem.freePages + |u.live| == t.mem.freePages + |t.live|
  {
    match op
    case AllocOp => AllocSafe(t);
    case FreeLive(k) => if k < |t.live| { FreeSafe(t, k); }
  }

  lemma AllocSafe(t: Trace)
    requires WellFormed(t.mem) && t.mem.ready && Disjoint(t)
    ensures var u := Step(t, AllocOp);
            && WellFormed(u.mem) && u.mem.ready && Disjoint(u)
            && u.mem.freePages + |u.live| == t.mem.freePages + |t.live|
  {
  }

  lemma FreeSafe(t: Trace, k: nat)
    requires WellFormed(t.mem) && t.mem.ready && Disjoint(t) && k < |t.live|
    ensures var u := Step(t, FreeLive(k));
            && WellFormed(u.mem) && u.mem.ready && Disjoint(u)
            && u.mem.freePages + |u.live| == t.mem.freePages + |t.live|
  {
    var i := t.live[k] / PAGE_SIZE;
    assert i !in t.mem.free && !IsFree(t.mem.flags[i]);
    FreeKeeps(t.mem, t.live[k]);
    var mem, live := Free(t.mem, t.live[k]), t.live[..k] + t.live[k + 1..];
    forall j | 0 <= j < |live|
      ensures live[j] / PAGE_SIZE != i && live[j] in t.live
    {
      assert live[j] == if j < k then t.live[j] else t.live[j + 1];
    }
    assert mem.free == [i] + t.mem.free;
  }

  /** Every run in which only live allocations are freed: the list stays exact, live pages stay pairwise
      distinct and off the list, and free plus live pages is conserved. */
  lemma {:induction false} RunSafe(t: Trace, ops: seq<Op>, end: Trace)
    requires t.mem.ready && Disjoint(t) && (forall k :: 0 <= k < |ops| ==> !ops[k].FreeAny?)
    requires Reaches(t, ops, end)
    ensures WellFormed(end.mem) && end.mem.ready && Disjoint(end)
    ensures end.mem.freePages + |end.live| == t.mem.freePages + |t.live|
    decreases |ops|
  {
    if ops != [] {
      StepSafe(t, ops[0]);
      RunSafe(Step(t, ops[0]), ops[1..], end);
    }
  }

  /** Every sequence of calls, with any addresses at all, has a run, and each state of it keeps the free
      list exact. */
  lemma {:induction false} RunExists(t: Trace, ops: seq<Op>) returns (end: Trace)
    requires WellFormed(t.mem)
    ensures Reaches(t, ops, end) && WellFormed(end.mem) && end.mem.ready == t.mem.ready
    decreases |ops|
  {
    if ops == [] {
      end := t;
    } else {
      match ops[0] {
        case AllocOp => AllocKeeps(t.mem);
        case FreeLive(k) => if k < |t.live| { FreeKeeps(t.mem, t.live[k]); }
        case FreeAny(a) => FreeKeeps(t.mem, a);
      }
      end := RunExists(Step(t, ops[0]), ops[1..]);
    }
  }

  // ---- The boot memory map ----

  const USIZE := 0x1_0000_0000
  const U64 := 0x1_0000_0000_0000_0000

  type u64 = x: nat | x < U64

  datatype E820Entry = E820Entry(base: u64, length: u64, regionType: u32)

  predicate Usable(e: E820Entry) {
    e.regionType == 1
  }

  /** First and one-past-last page of an entry, as `init` computes them in 64-bit arithmetic. */
  function FirstPage(e: E820Entry): nat {
    (e.base + PAGE_SIZE - 1) % U64 / PAGE_SIZE
  }

  function LastPage(e: E820Entry): nat {
    (e.base + e.length) % U64 / PAGE_SIZE
  }

  /** The same, cast to a 32-bit usize. */
  function StartPage(e: E820Entry): nat {
    FirstPage(e) % USIZE
  }

  function EndPage(e: E820Entry): nat {
    LastPage(e) % USIZE
  }

  predicate Skipped(e: E820Entry) {
    !Usable(e) || FirstPage(e) >= LastPage(e)
  }

  predicate Visits(e: E820Entry, i: nat) {
    !Skipped(e) && StartPage(e) <= i < EndPage(e)
  }

  /** All 4096 bytes of page `i` lie in the region. */
  predicate Inside(e: E820Entry, i: nat) {
    e.regionType == 1 && e.base <= i * 4096 && (i + 1) * 4096 <= e.base + e.length
  }

  ghost predicate VisitedBefore(regions: seq<E820Entry>, n: nat, i: nat)
    requires n <= |regions|
  {
    exists k :: 0 <= k < n && Visits(regions[k], i)
  }

  /** `seen` is what the first `n` entries visit. */
  ghost predicate SeenIs(seen: set<nat>, regions: seq<E820Entry>, n: nat)
    requires n <= |regions|
  {
    forall i :: 256 <= i < MAX_PAGE_FRAMES ==> (i in seen <==> VisitedBefore(regions, n, i))
  }

  /** `now` is `seen` and the tracked pages from `first` up to `last`. */
  predicate Extends(now: set<nat>, seen: set<nat>, first: nat, last: nat) {
    forall i :: 256 <= i < MAX_PAGE_FRAMES ==> (i in now <==> i in seen || first <= i < last)
  }

  lemma ExtendsNext(now: set<nat>, seen: set<nat>, first: nat, i: nat)
    requires first <= i && Extends(now, seen, first, i)
    ensures Extends(now + {i}, seen, first, i + 1)
    ensures i < 256 ==> Extends(now, seen, first, i + 1)
    ensures i >= MAX_PAGE_FRAMES ==> forall last: nat :: last >= i ==> Extends(now, seen, first, last)
  {
  }

  /** The pages of entry `n` are new, and adding them accounts for it. */
  lemma SeenNext(seen: set<nat>, regions: seq<E820Entry>, n: nat, now: set<nat>)
    requires n < |regions| && NoPageTwice(regions) && SeenIs(seen, regions, n)
    ensures forall i :: 256 <= i < MAX_PAGE_FRAMES && Visits(regions[n], i) ==> i !in seen
    ensures (forall i :: 256 <= i < MAX_PAGE_FRAMES ==> (i in now <==> i in seen || Visits(regions[n], i)))
            ==> SeenIs(now, regions, n + 1)
  {
  }

  ghost predicate Visited(regions: seq<E820Entry>, i: nat) {
    VisitedBefore(regions, |regions|, i)
  }

  ghost predicate Covered(regions: seq<E820Entry>, i: nat) {
    exists k :: 0 <= k < |regions| && Inside(regions[k], i)
  }

  /** No page that `init` touches is visited for two entries, so no frame is pushed twice. */
  ghost predicate NoPageTwice(regions: seq<E820Entry>) {
    forall j, k, i :: 0 <= j < k < |regions| && 256 <= i < MAX_PAGE_FRAMES && Visits(regions[j], i) ==>
      !Visits(regions[k], i)
  }

  /** Firmware promise: usable regions do not overlap. */
  ghost predicate NonOverlapping(regions: seq<E820Entry>) {
    forall j, k :: 0 <= j < k < |regions| && Usable(regions[j]) && Usable(regions[k]) ==>
      || regions[j].base + regions[j].length <= regions[k].base
      || regions[k].base + regions[k].length <= regions[j].base
  }

  /** Casting both ends of the page range `first..last` to a 32-bit usize keeps the tracked pages. */
  predicate CastFits(first: nat, last: nat) {
    || last < USIZE
    || (first < USIZE && (first >= MAX_PAGE_FRAMES || last % USIZE >= MAX_PAGE_FRAMES))
    || (first >= USIZE
        && (last % USIZE <= first % USIZE || last % USIZE <= 256 || first % USIZE >= MAX_PAGE_FRAMES))
  }

  /** Neither of the two 64-bit sums wraps. */
  predicate SumsFit(e: E820Entry) {
    e.base + PAGE_SIZE - 1 < U64 && e.base + e.length < U64
  }

  /** A wrapped sum does no harm: nothing tracked is visited or missed. */
  predicate WrapFits(e: E820Entry) {
    var first, last := (e.base + PAGE_SIZE - 1) / PAGE_SIZE, LastPage(e);
    if e.base + PAGE_SIZE - 1 >= U64 then e.base + e.length >= U64 && last % USIZE <= 256
    else if first < USIZE then first >= MAX_PAGE_FRAMES || (first < last && last % USIZE >= MAX_PAGE_FRAMES)
    else first >= last || last % USIZE <= first % USIZE || last % USIZE <= 256 || first % USIZE >= MAX_PAGE_FRAMES
  }

  predicate PagesFit(e: E820Entry) {
    var first, last := (e.base + PAGE_SIZE - 1) / PAGE_SIZE, (e.base + e.length) / PAGE_SIZE;
    !Usable(e) || if SumsFit(e) then first >= last || CastFits(first, last) else WrapFits(e)
  }

  predicate Within(first: nat, i: nat, last: nat) {
    first <= i < last
  }

  lemma CastExact(first: nat, last: nat)
    requires first < last
    ensures CastFits(first, last) <==>
            forall i: nat :: 256 <= i < MAX_PAGE_FRAMES ==>
              (Within(first % USIZE, i, last % USIZE) <==> Within(first, i, last))
  {
    var a, b := first % USIZE, last % USIZE;
    if !CastFits(first, last) {
      var i := if first >= USIZE then (if a < 256 then 256 else a)
               else if b < 256 then (if first < 256 then 256 else first)
               else if first < b then b else first;
      assert Within(a, i, b) != Within(first, i, last);
    }
  }

  lemma InsidePages(e: E820Entry, first: nat, last: nat)
    requires first == (e.base + PAGE_SIZE - 1) / PAGE_SIZE && last == (e.base + e.length) / PAGE_SIZE
    ensures forall i: nat :: Inside(e, i) <==> Usable(e) && Within(first, i, last)
  {
  }

  /** `init` visits exactly the tracked pages lying wholly inside a region, if and only if the region's page
      numbers survive the 64-bit sums and the cast; every region ending below 2^44 does. */
  lemma VisitsIffInside(e: E820Entry)
    ensures (forall i: nat :: 256 <= i < MAX_PAGE_FRAMES ==> (Visits(e, i) <==> Inside(e, i))) <==> PagesFit(e)
    ensures e.base + e.length < 0x1000_0000_0000 ==> PagesFit(e)
  {
    var first, last := (e.base + PAGE_SIZE - 1) / PAGE_SIZE, (e.base + e.length) / PAGE_SIZE;
    InsidePages(e, first, last);
    if Usable(e) {
      if SumsFit(e) { FitExact(e, first, last); } else { WrapExact(e, first, last); }
    }
  }

  /** The case without a wrap. */
  lemma FitExact(e: E820Entry, first: nat, last: nat)
    requires Usable(e) && SumsFit(e) && first == FirstPage(e) && last == LastPage(e)
    requires forall i: nat :: Inside(e, i) <==> Within(first, i, last)
    ensures (forall i: nat :: 256 <= i < MAX_PAGE_FRAMES ==> (Visits(e, i) <==> Inside(e, i)))
            <==> first >= last || CastFits(first, last)
  {
    if first < last {
      CastExact(first, last);
      if !CastFits(first, last) {
        var i: nat :| 256 <= i < MAX_PAGE_FRAMES && Within(first % USIZE, i, last % USIZE) != Within(first, i, last);
        assert Visits(e, i) != Inside(e, i);
      }
    }
  }

  /** The case of a wrapped sum: the region then reaches past every page the code can name. */
  lemma WrapExact(e: E820Entry, first: nat, last: nat)
    requires Usable(e) && !SumsFit(e)
    requires first == (e.base + PAGE_SIZE - 1) / PAGE_SIZE && last == (e.base + e.length) / PAGE_SIZE
    requires forall i: nat :: Inside(e, i) <==> Within(first, i, last)
    ensures (forall i: nat :: 256 <= i < MAX_PAGE_FRAMES ==> (Visits(e, i) <==> Inside(e, i))) <==> WrapFits(e)
  {
    if e.base + PAGE_SIZE - 1 >= U64 {
      assert first == 0x10_0000_0000_0000 && FirstPage(e) == 0;
      if e.base + e.length < U64 { assert LastPage(e) == 0xF_FFFF_FFFF_FFFF; }
      if !WrapFits(e) { assert Visits(e, 256) && !Inside(e, 256); }
    } else {
      assert last >= 0x10_0000_0000_0000 && FirstPage(e) == first;
      if !WrapFits(e) {
        var a, b := first % USIZE, LastPage(e) % USIZE;
        var i := if first >= USIZE then (if a < 256 then 256 else a)
                 else if first >= LastPage(e) || b <= first then (if first < 256 then 256 else first)
                 else if b < 256 then 256 else b;
        assert Visits(e, i) != Inside(e, i);
      }
    }
  }

  /** Above the bound the cast goes wrong: one page at 2^44 + 2 MiB makes `init` free page 512 instead. */
  lemma CastFreesWrongPage()
    ensures var e := E820Entry(0x1000_0020_0000, 0x1000, 1); Visits(e, 512) && !Inside(e, 512) && !PagesFit(e)
  {
  }

  /** For non-overlapping regions whose pages fit, `init` pushes no frame twice and visits page `i`
      exactly when its 4 KiB lies inside one usable region. */
  lemma BootMapExact(regions: seq<E820Entry>)
    requires NonOverlapping(regions)
    requires forall k :: 0 <= k < |regions| ==> PagesFit(regions[k])
    ensures NoPageTwice(regions)
    ensures forall i :: 256 <= i < MAX_PAGE_FRAMES ==> (Visited(regions, i) <==> Covered(regions, i))
  {
    forall k | 0 <= k < |regions|
      ensures forall i :: 256 <= i < MAX_PAGE_FRAMES ==> (Visits(regions[k], i) <==> Inside(regions[k], i))
    {
      VisitsIffInside(regions[k]);
    }
  }

  ghost function KernelPart(seen: set<nat>): set<nat> {
    set i | i in seen && i < 512
  }

  /** What `init` has established once it has visited exactly the pages `seen`. */
  ghost predicate BootState(s: PmmState, seen: set<nat>) {
    && |s.flags| == |s.refs| == MAX_PAGE_FRAMES
    && (forall i :: i in seen ==> 256 <= i < MAX_PAGE_FRAMES)
    && (forall i :: 0 <= i < MAX_PAGE_FRAMES ==>
          && s.refs[i] == 0
          && s.flags[i] == if i !in seen then RESERVED else if i < 512 then KERNEL else FREE)
    && (forall i :: i in s.free <==> i in seen && i >= 512)
    && (forall j, k :: 0 <= j < k < |s.free| ==> s.free[j] != s.free[k])
    && s.freePages == |s.free|
    && s.kernelPages == |KernelPart(seen)|
  }

  /** Visiting page `i` for the first time. */
  lemma BootVisit(s: PmmState, seen: set<nat>, i: nat, t: PmmState)
    requires BootState(s, seen) && 256 <= i < MAX_PAGE_FRAMES && i !in seen
    requires t == if i < 512 then s.(flags := s.flags[i := KERNEL], kernelPages := s.kernelPages + 1)
                  else s.(flags := s.flags[i := FREE], free := [i] + s.free, freePages := s.freePages + 1)
    ensures BootState(t, seen + {i})
  {
    assert KernelPart(seen + {i}) == if i < 512 then KernelPart(seen) + {i} else KernelPart(seen);
    assert i !in s.free;
    if i >= 512 {
      assert forall j :: j in t.free <==> j == i || j in s.free;
    }
  }

  /** Once the page count is set too, the boot state is well formed and says exactly which pages are free. */
  lemma BootDone(s: PmmState, seen: set<nat>, regions: seq<E820Entry>, t: PmmState)
    requires BootState(s, seen) && s.ready && t == s.(totalPages := s.freePages + s.kernelPages)
    requires SeenIs(seen, regions, |regions|)
    ensures WellFormed(t) && Booted(t, regions)
  {
    assert !IsFree(RESERVED) && !IsFree(KERNEL) && IsFree(FREE);
    assert forall k :: 0 <= k < |s.free| ==> s.free[k] in s.free;
    assert KernelPart(seen) == set i: nat | 256 <= i < 512 && Visited(regions, i);
  }

  /** The allocator after `init`: the free pages are the visited ones from 512 on, the visited ones below
      are the kernel's, every other frame is reserved, and the totals add up. */
  ghost predicate Booted(s: PmmState, regions: seq<E820Entry>) {
    && s.ready && |s.flags| == MAX_PAGE_FRAMES
    && (forall i: nat :: i < MAX_PAGE_FRAMES ==> (i in s.free <==> i >= 512 && Visited(regions, i)))
    && (forall i: nat :: i < MAX_PAGE_FRAMES ==>
          s.flags[i] == if i < 256 || !Visited(regions, i) then RESERVED else if i < 512 then KERNEL else FREE)
    && s.kernelPages == |set i: nat | 256 <= i < 512 && Visited(regions, i)|
    && s.totalPages == s.freePages + s.kernelPages
  }

  /** Exactly the right pages are free after boot: page `i` is on the free list, once, if and only if it is
      tracked, lies above the kernel's 2 MiB, and its 4 KiB lies inside one usable region. */
  lemma BootFreesExactly(s: PmmState, regions: seq<E820Entry>)
    requires WellFormed(s) && Booted(s, regions) && NonOverlapping(regions)
    requires forall k :: 0 <= k < |regions| && Usable(regions[k]) ==> regions[k].base + regions[k].length < 0x1000_0000_0000
    ensures forall i: nat :: i in s.free <==> 512 <= i < 65536 && Covered(regions, i)
    ensures forall j, k :: 0 <= j < k < |s.free| ==> s.free[j] != s.free[k]
    ensures s.totalPages == |s.free| + s.kernelPages
    ensures s.kernelPages == |set i: nat | 256 <= i < 512 && Covered(regions, i)|
  {
    forall k | 0 <= k < |regions|
      ensures PagesFit(regions[k])
    {
      VisitsIffInside(regions[k]);
    }
    BootMapExact(regions);
    assert (set i: nat | 256 <= i < 512 && Covered(regions, i)) == set i: nat | 256 <= i < 512 && Visited(regions, i);
  }
}
