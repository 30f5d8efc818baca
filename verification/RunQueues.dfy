/** The scheduler's array of intrusive FIFO queues, one per priority, over one pool of nodes. */
module RunQueues {
  import opened Common
  import opened Intrusive

  class QueueArray<T> {
    const lists: seq<List<T>>
    ghost var pool: set<Node<T>>              // every node that may be queued
    ghost var queues: seq<seq<Node<T>>>       // the abstract value
    ghost var home: map<Node<T>, nat>         // the queue a node joined last

    ghost predicate Valid()
      reads this, lists, pool`next, pool`prev
    {
      && |lists| == |queues|
      && (forall p, q :: 0 <= p < q < |lists| ==> lists[p] != lists[q])
      && (forall p :: 0 <= p < |lists| ==> lists[p].nodes == queues[p])
      && (forall p, t :: 0 <= p < |lists| && t in queues[p] ==> t in pool)
      && (forall p, t {:trigger t in queues[p]} :: 0 <= p < |lists| && t in queues[p] ==> t in home && home[t] == p)
      && (forall p :: 0 <= p < |lists| ==> lists[p].Valid())
    }

    constructor (n: nat)
      ensures Valid() && fresh(lists)
      ensures pool == {} && queues == seq(n, _ => [])
    {
      var ls: seq<List<T>> := [];
      while |ls| < n
        invariant |ls| <= n && fresh(ls)
        invariant forall p :: 0 <= p < |ls| ==> ls[p].Valid() && ls[p].nodes == []
        invariant forall p, q :: 0 <= p < q < |ls| ==> ls[p] != ls[q]
      {
        var l := new List<T>();
        ls := ls + [l];
      }
      lists := ls;
      pool, home := {}, map[];
      queues := seq(n, _ => []);
    }

    /** A node becomes known; it is in no queue yet. */
    ghost method Admit(item: Node<T>)
      requires Valid()
      modifies `pool
      ensures Valid() && pool == old(pool) + {item}
    {
      pool := pool + {item};
    }

    method Enqueue(p: nat, item: Node<T>)
      requires Valid() && p < |lists| && item in pool && forall q :: 0 <= q < |queues| ==> item !in queues[q]
      modifies `queues, `home, lists, pool`next, pool`prev
      ensures Valid() && queues == old(queues)[p := old(queues)[p] + [item]]
    {
      lists[p].PushBack(item);
      forall q | 0 <= q < |lists| && q != p
        ensures lists[q].Valid()
      {
        assert forall t :: t in queues[q] ==> t !in queues[p] && t != item;
        Unaffected(lists[q]);
      }
      queues := queues[p := queues[p] + [item]];
      home := home[item := p];
    }

    method Dequeue(p: nat) returns (r: Option<Node<T>>)
      requires Valid() && p < |lists|
      modifies `queues, lists, pool`next, pool`prev
      ensures Valid()
      ensures var q := old(queues)[p];
              if q == [] then r == None && queues == old(queues)
              else r == Some(q[0]) && queues == old(queues)[p := q[1..]]
    {
      r := lists[p].PopFront();
      forall q | 0 <= q < |lists| && q != p
        ensures lists[q].Valid()
      {
        assert forall t :: t in queues[q] ==> t !in queues[p];
        Unaffected(lists[q]);
      }
      ghost var rest := if queues[p] == [] then [] else queues[p][1..];
      assert forall t :: t in rest ==> t in queues[p];
      queues := queues[p := rest];
    }
  }

  /** Relinking other nodes leaves a list valid. */
  twostate lemma Unaffected<T>(l: List<T>)
    requires old(l.Valid()) && unchanged(l)
    requires forall t :: t in l.nodes ==> t.next == old(t.next) && t.prev == old(t.prev)
    ensures l.Valid()
  {
  }
}
