/** The intrusive doubly linked list of kernel/src/mm/intrusive.rs.

    A container embeds its node at offset 0, so a node pointer and its container pointer are the same
    address; `Node<T>` is that container: the two links first, then the container's other fields. */
module Intrusive {
  import opened Common

  class Node<T> {
    var next: Node?<T>
    var prev: Node?<T>
    var data: T

    constructor (data: T)
      ensures next == null && prev == null && this.data == data
    {
      next, prev, this.data := null, null, data;
    }

    predicate IsLinked()
      reads `next, `prev
    {
      next != null || prev != null
    }

    method Reset()
      modifies `next, `prev
      ensures next == null && prev == null
    {
      next, prev := null, null;
    }
  }

  /** The node at index `i`, or null beyond either end. */
  ghost function At<T>(s: seq<Node<T>>, i: int): Node?<T> {
    if 0 <= i < |s| then s[i] else null
  }

  ghost predicate Distinct<T>(s: seq<T>) {
    forall i, j :: 0 <= i < j < |s| ==> s[i] != s[j]
  }

  lemma DropOne<T>(s: seq<T>, k: nat)
    requires Distinct(s) && k < |s|
    ensures var t := s[..k] + s[k + 1..];
            Distinct(t) && s[k] !in t && forall i :: 0 <= i < |t| ==> t[i] == s[if i < k then i else i + 1]
  {
  }

  function Reverse<T>(s: seq<T>): (r: seq<T>)
    ensures |r| == |s|
    ensures forall i :: 0 <= i < |s| ==> r[i] == s[|s| - 1 - i]
  {
    if s == [] then [] else Reverse(s[1..]) + [s[0]]
  }

  /** The nodes met by following `next` (or `prev`) at most `fuel` times inside `region`. */
  ghost function Follow<T>(n: Node?<T>, forward: bool, region: set<Node<T>>, fuel: nat): seq<Node<T>>
    reads region
  {
    if n == null || n !in region || fuel == 0 then []
    else [n] + Follow(if forward then n.next else n.prev, forward, region, fuel - 1)
  }

  class List<T> {
    var head: Node?<T>
    var tail: Node?<T>
    var len: nat
    ghost var nodes: seq<Node<T>>  // the abstract value: the linked nodes, front first

    ghost predicate Valid()
      reads this, nodes`next, nodes`prev
    {
      && len == |nodes|
      && Distinct(nodes)
      && (if nodes == [] then head == null && tail == null
          else
            && head == nodes[0] && head.prev == null
            && tail == nodes[|nodes| - 1] && tail.next == null)
      && (forall i {:trigger nodes[i].next} :: 0 <= i < |nodes| - 1 ==> nodes[i].next == nodes[i + 1])
      && (forall i {:trigger nodes[i].prev} :: 1 <= i < |nodes| ==> nodes[i].prev == nodes[i - 1])
    }

    ghost function Region(): set<Node<T>>
      reads this
    {
      set n | n in nodes
    }

    constructor ()
      ensures Valid() && nodes == []
    {
      head, tail, len, nodes := null, null, 0, [];
    }

    predicate IsEmpty()
      reads this
    {
      head == null
    }

    /** Queueing a new item puts it in front. Queueing an item that is in the list already destroys the list: the
        chain of `next` links from the head goes round for ever. */
    method PushFront(item: Node<T>)
      requires Valid()
      modifies this, nodes`next, nodes`prev, item`next, item`prev
      ensures item !in old(nodes) ==> Valid() && nodes == [item] + old(nodes)
      ensures item in old(nodes) ==> nodes == old(nodes) && Endless(head, true)
    {
      item.next := head;
      item.prev := null;
      if head != null {
        head.prev := item;
      } else {
        tail := item;
      }
      head := item;
      len := len + 1;
      if item in nodes {
        FrontLoops(item);
      } else {
        nodes := [item] + nodes;
      }
    }

    /** The same at the other end, with the chain of `prev` links from the tail. */
    method PushBack(item: Node<T>)
      requires Valid()
      modifies this, nodes`next, nodes`prev, item`next, item`prev
      ensures item !in old(nodes) ==> Valid() && nodes == old(nodes) + [item]
      ensures item in old(nodes) ==> nodes == old(nodes) && Endless(tail, false)
    {
      item.prev := tail;
      item.next := null;
      if tail != null {
        tail.next := item;
      } else {
        head := item;
      }
      tail := item;
      len := len + 1;
      if item in nodes {
        BackLoops(item);
      } else {
        nodes := nodes + [item];
      }
    }

    /** A queued node whose link was bent to the old head is met again and again. */
    twostate lemma FrontLoops(item: Node<T>)
      requires old(Valid()) && nodes == old(nodes) && item in nodes && item.next == old(head)
      requires forall m :: m in nodes && m != item ==> m.next == old(m.next)
      ensures Endless(item, true)
    {
      var k :| 0 <= k < |nodes| && nodes[k] == item;
      Trapped(item, true, set i | 0 <= i <= k :: nodes[i]);
    }

    twostate lemma BackLoops(item: Node<T>)
      requires old(Valid()) && nodes == old(nodes) && item in nodes && item.prev == old(tail)
      requires forall m :: m in nodes && m != item ==> m.prev == old(m.prev)
      ensures Endless(item, false)
    {
      var k :| 0 <= k < |nodes| && nodes[k] == item;
      Trapped(item, false, set i | k <= i < |nodes| :: nodes[i]);
    }

    /** Following links from `n` never leaves the list's nodes and never ends. */
    ghost predicate Endless(n: Node?<T>, forward: bool)
      reads this, nodes
    {
      forall fuel: nat :: |Follow(n, forward, Region(), fuel)| == fuel
    }

    /** No link leads out of the set. */
    ghost predicate Closed(trap: set<Node<T>>, forward: bool)
      reads trap
    {
      && (forward ==> forall m :: m in trap ==> m.next != null && m.next in trap)
      && (!forward ==> forall m :: m in trap ==> m.prev != null && m.prev in trap)
    }

    lemma Trapped(n: Node<T>, forward: bool, trap: set<Node<T>>)
      requires n in trap && trap <= Region()
      requires Closed(trap, forward)
      ensures Endless(n, forward)
    {
      forall fuel: nat
        ensures |Follow(n, forward, Region(), fuel)| == fuel
      {
        TrappedFor(n, forward, trap, fuel);
      }
    }

    lemma {:induction false} TrappedFor(n: Node<T>, forward: bool, trap: set<Node<T>>, fuel: nat)
      requires n in trap && trap <= Region()
      requires Closed(trap, forward)
      ensures |Follow(n, forward, Region(), fuel)| == fuel
      decreases fuel
    {
      if fuel > 0 {
        if forward { TrappedFor(n.next, forward, trap, fuel - 1); } else { TrappedFor(n.prev, forward, trap, fuel - 1); }
      }
    }

    method PopFront() returns (r: Option<Node<T>>)
      requires Valid()
      modifies this, nodes`next, nodes`prev
      ensures Valid()
      ensures old(nodes) == [] ==> r == None && nodes == []
      ensures old(nodes) != [] ==>
                && r == Some(old(nodes)[0]) && nodes == old(nodes)[1..]
                && r.value.next == null && r.value.prev == null
    {
      if head == null {
        return None;
      }
      var first := head;
      head := first.next;
      if head != null {
        head.prev := null;
      } else {
        tail := null;
      }
      first.Reset();
      len := len - 1;
      nodes := nodes[1..];
      r := Some(first);
    }

    method PopBack() returns (r: Option<Node<T>>)
      requires Valid()
      modifies this, nodes`next, nodes`prev
      ensures Valid()
      ensures old(nodes) == [] ==> r == None && nodes == []
      ensures old(nodes) != [] ==>
                && r == Some(old(nodes)[|old(nodes)| - 1]) && nodes == old(nodes)[..|old(nodes)| - 1]
                && r.value.next == null && r.value.prev == null
    {
      if tail == null {
        return None;
      }
      var last := tail;
      tail := last.prev;
      if tail != null {
        tail.next := null;
      } else {
        head := null;
      }
      last.Reset();
      len := len - 1;
      nodes := nodes[..|nodes| - 1];
      r := Some(last);
    }

    /** Unlinks `item`, which sits at the (ghost) index `k`. */
    method Remove(item: Node<T>) returns (ghost k: nat)
      requires Valid() && item in nodes
      modifies this, nodes`next, nodes`prev
      ensures Valid()
      ensures k < |old(nodes)| && old(nodes)[k] == item
      ensures nodes == old(nodes)[..k] + old(nodes)[k + 1..]
      ensures item.next == null && item.prev == null && item !in nodes
    {
      k :| 0 <= k < |nodes| && nodes[k] == item;
      ghost var was := nodes;
      assert item.prev == (if k == 0 then null else was[k - 1]);
      assert item.next == (if k == len - 1 then null else was[k + 1]);
      if item.prev != null {
        item.prev.next := item.next;
      } else {
        head := item.next;
      }
      if item.next != null {
        item.next.prev := item.prev;
      } else {
        tail := item.prev;
      }
      item.Reset();
      len := len - 1;
      nodes := was[..k] + was[k + 1..];
      DropOne(was, k);
      forall i | 0 <= i < |nodes|
        ensures i < |nodes| - 1 ==> nodes[i].next == nodes[i + 1]
        ensures i > 0 ==> nodes[i].prev == nodes[i - 1]
      {
        var j := if i < k then i else i + 1;
        assert nodes[i] == was[j];
        assert j < |was| - 1 ==> old(was[j].next) == was[j + 1];
        assert j > 0 ==> old(was[j].prev) == was[j - 1];
      }
    }

    /** The chain of `next` links from the head is the list, the chain of `prev` links from the tail is
        the list reversed, and both end after exactly `len` nodes. */
    lemma ChainsAgree()
      requires Valid()
      ensures Follow(head, true, Region(), len + 1) == nodes
      ensures Follow(tail, false, Region(), len + 1) == Reverse(nodes)
    {
      ForwardFrom(0, len + 1);
      BackwardFrom(len, len + 1);
      assert nodes[0..] == nodes && nodes[..len] == nodes;
    }

    lemma {:induction false} ForwardFrom(i: nat, fuel: nat)
      requires Valid() && i <= len && fuel > len - i
      ensures Follow(At(nodes, i), true, Region(), fuel) == nodes[i..]
      decreases len - i
    {
      if i < len {
        ForwardFrom(i + 1, fuel - 1);
        var n := nodes[i];
        assert n.next == At(nodes, i + 1) && n in Region();
        assert Follow(n, true, Region(), fuel) == [n] + Follow(n.next, true, Region(), fuel - 1);
        assert nodes[i..] == [n] + nodes[i + 1..];
      }
    }

    lemma {:induction false} BackwardFrom(i: nat, fuel: nat)
      requires Valid() && i <= len && fuel > i
      ensures Follow(At(nodes, i - 1), false, Region(), fuel) == Reverse(nodes[..i])
      decreases i
    {
      if i > 0 {
        BackwardFrom(i - 1, fuel - 1);
        var n := nodes[i - 1];
        assert n.prev == At(nodes, i - 2) && n in Region();
        assert Follow(n, false, Region(), fuel) == [n] + Follow(n.prev, false, Region(), fuel - 1);
        ReverseSnoc(nodes[..i - 1], n);
        assert nodes[..i] == nodes[..i - 1] + [n];
      }
    }

    /** `is_linked`, the guard of the debug assertions in the push operations, recognises a linked node
        exactly when the list holds at least two: the only node of a singleton list looks unlinked. */
    lemma IsLinkedIffNotAlone(n: Node<T>)
      requires Valid() && n in nodes
      ensures n.IsLinked() <==> len >= 2
    {
    }
  }

  lemma ReverseSnoc<T>(s: seq<T>, x: T)
    ensures Reverse(s + [x]) == [x] + Reverse(s)
  {
  }
}
