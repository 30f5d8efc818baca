/** The physical page allocator of kernel/src/mm/pmm.rs on linked page frames, proved against `Pages`. */
module Pmm {
  import opened Common
  import opened Intrusive
  import opened Pages

  datatype PageFrame = PageFrame(index: nat, flags: bv16, refCount: nat)

  class Pmm {
    const frames: seq<Node<PageFrame>>  // PAGE_FRAMES
    var freeList: List?<PageFrame>      // FREE_LIST
    var freePages: nat                  // STATS
    var kernelPages: nat
    var reservedPages: nat
    var totalPages: nat
    ghost var state: PmmState           // the abstract value

    /** The frame table, the list and the counters spell out `state`. */
    ghost predicate Shows()
      reads this, frames, freeList
    {
      && |frames| == |state.flags| == |state.refs| == MAX_PAGE_FRAMES
      && (forall i {:trigger frames[i]} :: 0 <= i < |frames| ==>
            frames[i].data == PageFrame(i, state.flags[i], state.refs[i]))
      && (forall k :: 0 <= k < |state.free| ==> state.free[k] < MAX_PAGE_FRAMES)
      && state.freePages == freePages && state.kernelPages == kernelPages && state.totalPages == totalPages
      && state.ready == (freeList != null)
      && (freeList == null ==> state.free == [])
      && (freeList != null ==> freeList.nodes == Frames(state.free) && freeList.Valid())
    }

    ghost function Frames(pages: seq<nat>): seq<Node<PageFrame>>
      requires forall k :: 0 <= k < |pages| ==> pages[k] < |frames|
    {
      seq(|pages|, k requires 0 <= k < |pages| => frames[pages[k]])
    }

    ghost predicate Valid()
      reads this, frames, freeList
    {
      Shows() && WellFormed(state)
    }

    constructor ()
      ensures Valid() && fresh(frames) && reservedPages == 0
      ensures state == PmmState(false, [], seq(MAX_PAGE_FRAMES, _ => 0), seq(MAX_PAGE_FRAMES, _ => 0), 0, 0, 0)
    {
      var fs: seq<Node<PageFrame>> := [];
      while |fs| < MAX_PAGE_FRAMES
        invariant |fs| <= MAX_PAGE_FRAMES && fresh(fs)
        invariant forall i :: 0 <= i < |fs| ==> fs[i].data == PageFrame(i, 0, 0)
      {
        var n := new Node(PageFrame(|fs|, 0, 0));
        fs := fs + [n];
      }
      frames, freeList := fs, null;
      freePages, kernelPages, reservedPages, totalPages := 0, 0, 0, 0;
      state := PmmState(false, [], seq(MAX_PAGE_FRAMES, _ => 0), seq(MAX_PAGE_FRAMES, _ => 0), 0, 0, 0);
    }

    method AllocPage() returns (r: Option<nat>)
      requires Valid()
      modifies `state, `freePages, `kernelPages, `totalPages, freeList, frames
      ensures Valid()
      ensures state == Alloc(old(state)).0
      ensures r == Alloc(old(state)).1
    {
      AllocKeeps(state);
      if freeList == null {
        return None;
      }
      var popped := PopFrame();
      if popped == None {
        return None;
      }
      var frame := popped.value;
      SetFrame(frame, frame.data.flags & !FREE, 1);
      SetStats(freePages - 1, kernelPages, totalPages);
      r := Some(frame.data.index * PAGE_SIZE);
    }

    method FreePage(addr: nat)
      requires Valid()
      modifies `state, `freePages, `kernelPages, `totalPages, freeList, frames
      ensures Valid()
      ensures state == Free(old(state), addr)
    {
      FreeKeeps(state, addr);
      var i := addr / PAGE_SIZE;
      if i >= MAX_PAGE_FRAMES {
        return;
      }
      var frame := frames[i];
      if IsFree(frame.data.flags) {
        return;
      }
      SetFrame(frame, frame.data.flags | FREE, 0);
      if freeList != null {
        PushFrame(frame);
      }
      SetStats(freePages + 1, kernelPages, totalPages);
    }

    /** Overwrites the bookkeeping of one frame, leaving every link alone. */
    method SetFrame(frame: Node<PageFrame>, flags: bv16, refCount: nat)
      requires Shows() && frame in frames
      modifies `state, frame`data
      ensures Shows() && frame.data.index == old(frame.data.index) < MAX_PAGE_FRAMES
      ensures var i := frame.data.index;
              state == old(state).(flags := old(state.flags)[i := flags], refs := old(state.refs)[i := refCount])
    {
      var i := frame.data.index;
      frame.data := frame.data.(flags := flags, refCount := refCount);
      state := state.(flags := state.flags[i := flags], refs := state.refs[i := refCount]);
    }

    /** Assigns the counters of `STATS`. */
    method SetStats(freePages: nat, kernelPages: nat, totalPages: nat)
      requires Shows()
      modifies `state, `freePages, `kernelPages, `totalPages
      ensures Shows()
      ensures state == old(state).(freePages := freePages, kernelPages := kernelPages, totalPages := totalPages)
    {
      this.freePages, this.kernelPages, this.totalPages := freePages, kernelPages, totalPages;
      state := state.(freePages := freePages, kernelPages := kernelPages, totalPages := totalPages);
    }

    /** `list.pop()`. */
    method PopFrame() returns (r: Option<Node<PageFrame>>)
      requires Shows() && freeList != null
      modifies `state, freeList, frames`next, frames`prev
      ensures Shows()
      ensures old(state.free) == [] ==> r == None && state == old(state)
      ensures old(state.free) != [] ==>
                && r.Some? && r.value in frames && r.value.data.index == old(state.free)[0]
                && state == old(state).(free := old(state.free)[1..])
    {
      r := freeList.PopFront();
      if r.Some? {
        state := state.(free := state.free[1..]);
      }
    }

    /** `list.push(frame)`. */
    method PushFrame(frame: Node<PageFrame>)
      requires Shows() && freeList != null && frame in frames && frame.data.index !in state.free
      modifies `state, freeList, frames`next, frames`prev
      ensures Shows() && state == old(state).(free := [frame.data.index] + old(state.free))
    {
      freeList.PushFront(frame);
      state := state.(free := [frame.data.index] + state.free);
      assert frames[frame.data.index] == frame;
      assert freeList.nodes == Frames(state.free);
    }

    // ---- Boot ----

    /** Halfway through `init`: `seen` are the pages from 256 on visited so far. */
    ghost predicate Booting(seen: set<nat>)
      reads this, frames, freeList
    {
      && Shows() && state.ready && BootState(state, seen)
    }

    method ReleaseFrame(i: nat)
      requires Shows() && freeList != null && i < MAX_PAGE_FRAMES && i !in state.free
      modifies `state, `freePages, `kernelPages, `totalPages, freeList, frames
      ensures Shows() && totalPages == old(totalPages)
      ensures state == var s := old(state);
                       s.(flags := s.flags[i := FREE], free := [i] + s.free, freePages := s.freePages + 1)
    {
      SetFrame(frames[i], FREE, frames[i].data.refCount);
      PushFrame(frames[i]);
      SetStats(freePages + 1, kernelPages, totalPages);
    }

    /** The body of the second pass, for a page from 256 on. */
    method VisitPage(i: nat, ghost seen: set<nat>)
      requires Booting(seen) && 256 <= i < MAX_PAGE_FRAMES && i !in seen
      modifies `state, `freePages, `kernelPages, `totalPages, freeList, frames
      ensures Booting(seen + {i}) && freeList == old(freeList)
      ensures totalPages == old(totalPages)
    {
      ghost var s := state;
      if i < 512 {
        SetFrame(frames[i], KERNEL, frames[i].data.refCount);
        SetStats(freePages, kernelPages + 1, totalPages);
        assert state == s.(flags := s.flags[i := KERNEL], kernelPages := s.kernelPages + 1);
      } else {
        ReleaseFrame(i);
      }
      BootVisit(s, seen, i, state);
    }

    /** The same for any page: the first megabyte is skipped. */
    method VisitTracked(i: nat, ghost seen: set<nat>) returns (ghost now: set<nat>)
      requires Booting(seen) && i < MAX_PAGE_FRAMES && (i >= 256 ==> i !in seen)
      modifies `state, `freePages, `kernelPages, `totalPages, freeList, frames
      ensures now == if i < 256 then seen else seen + {i}
      ensures Booting(now) && freeList == old(freeList)
      ensures totalPages == old(totalPages)
    {
      now := seen;
      if i >= 256 {
        VisitPage(i, seen);
        now := seen + {i};
      }
    }

    /** The second pass over one entry: `for page_idx in first..last`. */
    method FreeRange(first: nat, last: nat, ghost seen: set<nat>) returns (ghost now: set<nat>)
      requires Booting(seen)
      requires forall i :: first <= i < last && 256 <= i < MAX_PAGE_FRAMES ==> i !in seen
      modifies `state, `freePages, `kernelPages, `totalPages, freeList, frames
      ensures Booting(now) && freeList == old(freeList)
      ensures totalPages == old(totalPages)
      ensures Extends(now, seen, first, if last < first then first else last)
    {
      now := seen;
      var i := first;
      while i < last
        invariant first <= i && (i == first || i <= last)
        invariant Booting(now) && freeList == old(freeList)
        invariant totalPages == old(totalPages)
        invariant Extends(now, seen, first, i)
      {
        ExtendsNext(now, seen, first, i);
        if i >= MAX_PAGE_FRAMES {
          break;
        }
        now := VisitTracked(i, now);
        i := i + 1;
      }
    }

    /** The first pass: every frame becomes reserved. */
    method ReserveAll()
      requires Booting0(0)
      modifies this`state, frames`data
      ensures Booting({})
    {
      var f := 0;
      while f < MAX_PAGE_FRAMES
        invariant 0 <= f <= MAX_PAGE_FRAMES && Booting0(f)
      {
        SetFrame(frames[f], RESERVED, frames[f].data.refCount);
        f := f + 1;
      }
    }

    /** Before the second pass: nothing free, no counts, the first `n` frames reserved. */
    ghost predicate Booting0(n: nat)
      reads this, frames, freeList
    {
      && Shows() && state.ready && state.free == [] && state.freePages == state.kernelPages == 0
      && n <= MAX_PAGE_FRAMES
      && (forall i :: 0 <= i < n ==> state.flags[i] == RESERVED)
      && (forall i :: 0 <= i < MAX_PAGE_FRAMES ==> state.refs[i] == 0)
    }

    method FreeRegions(regions: seq<E820Entry>) returns (ghost seen: set<nat>)
      requires Booting({}) && NoPageTwice(regions)
      modifies `state, `freePages, `kernelPages, `totalPages, freeList, frames
      ensures Booting(seen) && freeList == old(freeList)
      ensures totalPages == old(totalPages)
      ensures SeenIs(seen, regions, |regions|)
    {
      seen := {};
      var k := 0;
      while k < |regions|
        invariant 0 <= k <= |regions|
        invariant totalPages == old(totalPages)
        invariant Booting(seen) && freeList == old(freeList)
        invariant SeenIs(seen, regions, k)
      {
        var e := regions[k];
        if !Skipped(e) {
          SeenNext(seen, regions, k, seen);
          ghost var now := FreeRange(StartPage(e), EndPage(e), seen);
          SeenNext(seen, regions, k, now);
          seen := now;
        } else {
          SeenNext(seen, regions, k, seen);
        }
        k := k + 1;
      }
    }

    /** The new, empty list and the first pass. */
    method StartList()
      requires Valid() && freeList == null && state.freePages == state.kernelPages == 0
      requires forall i :: 0 <= i < MAX_PAGE_FRAMES ==> state.refs[i] == 0
      modifies `freeList, `state, frames`data
      ensures Booting({}) && fresh(freeList)
    {
      freeList := new List<PageFrame>();
      state := state.(ready := true);
      ReserveAll();
    }

    /** The second pass and the total. */
    method Count(regions: seq<E820Entry>)
      requires Booting({}) && NoPageTwice(regions) && reservedPages == 0
      modifies `state, `freePages, `kernelPages, `totalPages, freeList, frames
      ensures Valid() && freeList == old(freeList) && Booted(state, regions)
    {
      ghost var seen := FreeRegions(regions);
      ghost var s := state;
      SetStats(freePages, kernelPages, freePages + kernelPages + reservedPages);
      BootDone(s, seen, regions, state);
    }

    /** `init`, called once at boot on the statically initialised allocator. */
    method Init(regions: seq<E820Entry>)
      requires Valid() && reservedPages == 0
      requires state == PmmState(false, [], seq(MAX_PAGE_FRAMES, _ => 0), seq(MAX_PAGE_FRAMES, _ => 0), 0, 0, 0)
      requires NoPageTwice(regions)
      modifies this, frames
      ensures Valid() && fresh(freeList) && Booted(state, regions)
    {
      StartList();
      Count(regions);
    }
  }
}
