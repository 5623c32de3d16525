/** The intrusive doubly linked process queue of rekernel/queue.d. */
module Queues {
  import opened Base
  import opened Protocol

  /** The part of a process that scheduling uses (rekernel/proc.d). */
  class Proc {
    const pid: nat
    const parent: Proc?
    var next: Proc?
    var prev: Proc?
    var state: State
    var wq: Wq
    var children: seq<Proc>

    constructor (pid: nat, parent: Proc?)
      ensures this.pid == pid && this.parent == parent && state == Runnable && wq == NoQueue && children == []
    {
      this.pid, this.parent := pid, parent;
      next, prev, state, wq, children := null, null, Runnable, NoQueue, [];
    }
  }

  ghost function All(q: seq<Proc>): set<Proc> {
    set p | p in q
  }

  /** The processes of a queue, without the one at index k. */
  ghost function Dropped(q: seq<Proc>, k: nat): seq<Proc>
    requires k < |q|
  {
    q[..k] + q[k + 1..]
  }

  ghost function After(q: seq<Proc>, i: nat): Proc?
    requires i < |q|
  {
    if i + 1 < |q| then q[i + 1] else null
  }

  ghost function Before(q: seq<Proc>, i: nat): Proc?
    requires i < |q|
  {
    if i > 0 then q[i - 1] else null
  }

  /** Where the processes and their neighbours are once the one at index k is gone. */
  lemma DroppedLinks(q: seq<Proc>, k: nat, i: nat)
    requires k < |q| && i < |q| - 1
    ensures var d, j := Dropped(q, k), if i < k then i else i + 1;
            && d[i] == q[j]
            && After(d, i) == (if j + 1 == k then After(q, k) else After(q, j))
            && Before(d, i) == (if j == k + 1 then Before(q, k) else Before(q, j))
  {
  }

  ghost function First(q: seq<Proc>): Proc? { if q == [] then null else q[0] }

  ghost function Last(q: seq<Proc>): Proc? { if q == [] then null else q[|q| - 1] }

  lemma DroppedEnds(q: seq<Proc>, k: nat)
    requires k < |q|
    ensures First(Dropped(q, k)) == if k == 0 then After(q, k) else First(q)
    ensures Last(Dropped(q, k)) == if k == |q| - 1 then Before(q, k) else Last(q)
  {
  }

  lemma DroppedDifferent(q: seq<Proc>, k: nat)
    requires Distinct(q) && k < |q|
    ensures Distinct(Dropped(q, k)) && q[k] !in Dropped(q, k)
    ensures forall p :: p in Dropped(q, k) <==> p in q && p != q[k]
  {
  }

  lemma FrontEnds(p: Proc, q: seq<Proc>)
    requires Distinct(q) && p !in q
    ensures Distinct([p] + q) && First([p] + q) == p && Last([p] + q) == (if q == [] then p else Last(q))
    ensures First(q) == null <==> q == []
    ensures q != [] ==> First(q) == q[0] && forall i :: 0 < i < |q| ==> q[i] != q[0]
  {
    var e := [p] + q;
    forall i, j | 0 <= i < j < |e|
      ensures e[i] != e[j]
    {
      assert e[j] == q[j - 1];
    }
  }

  lemma FrontLinks(p: Proc, q: seq<Proc>, i: nat)
    requires i <= |q|
    ensures After([p] + q, i) == if i == 0 then First(q) else After(q, i - 1)
    ensures Before([p] + q, i) == if i == 0 then null else if i == 1 then p else Before(q, i - 1)
  {
  }

  class Queue {
    var front: Proc?
    var back: Proc?
    var size: nat
    ghost var elems: seq<Proc> // front first

    constructor ()
      ensures Valid() && elems == []
    {
      front, back, size, elems := null, null, 0, [];
    }

    ghost predicate Valid()
      reads this, All(elems)`next, All(elems)`prev
      ensures Valid() ==> Distinct(elems) && front == First(elems)
    {
      && size == |elems|
      && Distinct(elems)
      && front == First(elems) && back == Last(elems)
      && (forall i :: 0 <= i < |elems| ==> elems[i].next == After(elems, i) && elems[i].prev == Before(elems, i))
    }

    lemma NextOf(k: nat)
      requires Valid() && k < |elems|
      ensures elems[k].next == After(elems, k)
    {
      hide Distinct;
    }

    method PushFront(p: Proc)
      requires Valid() && p !in elems
      modifies this, p`next, p`prev, All(elems)`prev
      ensures Valid() && elems == [p] + old(elems)
    {
      hide First;
      hide Last;
      hide After;
      hide Before;
      hide Distinct;
      ghost var q := elems;
      FrontEnds(p, q);
      p.next := front;
      p.prev := null;
      if front != null {
        front.prev := p;
      } else {
        back := p;
      }
      front := p;
      size := size + 1;
      elems := [p] + elems;
      forall i | 0 <= i < |elems|
        ensures elems[i].next == After(elems, i) && elems[i].prev == Before(elems, i)
      {
        FrontLinks(p, q, i);
        assert i > 0 ==> elems[i] == q[i - 1] && elems[i] in q;
      }
    }

    /** The first half of remove: the successor of p, or the queue, forgets p. */
    method BypassNext(p: Proc, ghost k: nat)
      requires Valid() && k < |elems| && elems[k] == p
      modifies this`back, All(elems)`prev
      ensures back == if k == |elems| - 1 then Before(elems, k) else Last(elems)
      ensures forall j :: 0 <= j < |elems| ==>
                elems[j].prev == if j == k + 1 then Before(elems, k) else Before(elems, j)
    {
      assert p.next == After(elems, k) && p.prev == Before(elems, k);
      if p.next != null {
        p.next.prev := p.prev;
      } else {
        back := p.prev;
      }
    }

    /** The second half of remove: the predecessor of p, or the queue, forgets p. */
    method BypassPrev(p: Proc, ghost k: nat)
      requires Distinct(elems) && k < |elems| && elems[k] == p && p.prev == Before(elems, k) && front == First(elems)
      requires forall j :: 0 <= j < |elems| ==> elems[j].next == After(elems, j)
      modifies this`front, All(elems)`next
      ensures front == if k == 0 then After(elems, k) else First(elems)
      ensures forall j :: 0 <= j < |elems| ==>
                elems[j].next == if j + 1 == k then After(elems, k) else After(elems, j)
    {
      assert p.next == After(elems, k);
      if p.prev != null {
        p.prev.next := p.next;
      } else {
        front := p.next;
      }
    }

    method Remove(p: Proc, ghost k: nat)
      requires Valid() && k < |elems| && elems[k] == p
      modifies this, All(elems)`next, All(elems)`prev
      ensures Valid() && elems == Dropped(old(elems), k)
    {
      hide First;
      hide Last;
      hide After;
      hide Before;
      hide Distinct;
      ghost var q := elems;
      BypassNext(p, k);
      BypassPrev(p, k);
      size := size - 1;
      elems := Dropped(q, k);
      DroppedDifferent(q, k);
      DroppedEnds(q, k);
      forall i | 0 <= i < |elems|
        ensures elems[i].next == After(elems, i) && elems[i].prev == Before(elems, i)
      {
        DroppedLinks(q, k, i);
      }
    }

    method PopBack() returns (p: Proc?)
      requires Valid()
      modifies this, All(elems)`next, All(elems)`prev
      ensures Valid()
      ensures old(elems) == [] ==> p == null && elems == []
      ensures old(elems) != [] ==> p == old(elems)[|old(elems)| - 1] && elems == old(elems)[..|old(elems)| - 1]
    {
      if back == null {
        return null;
      }
      var b := back;
      Remove(b, |elems| - 1);
      return b;
    }
  }

  ghost function Reversed(q: seq<Proc>): seq<Proc> {
    if q == [] then [] else Reversed(q[1..]) + [q[0]]
  }

  ghost predicate Apart(q: seq<Proc>, r: seq<Proc>) {
    forall p :: p in q ==> p !in r
  }

  /** Moves a blocked process from a queue to the run queue and makes it runnable. */
  method Wake(q: Queue, runq: Queue, p: Proc, ghost k: nat)
    requires q != runq && q.Valid() && runq.Valid() && Apart(q.elems, runq.elems)
    requires k < |q.elems| && q.elems[k] == p && p.state == Blocked
    modifies q, runq, p`state, All(q.elems)`next, All(q.elems)`prev, All(runq.elems)`prev
    ensures q.Valid() && runq.Valid() && Apart(q.elems, runq.elems)
    ensures q.elems == Dropped(old(q.elems), k) && runq.elems == [p] + old(runq.elems) && p.state == Runnable
  {
    hide Distinct;
    hide Dropped;
    hide After;
    hide Before;
    hide First;
    hide Last;
    DroppedDifferent(q.elems, k);
    assert forall o :: o in runq.elems ==> o !in q.elems;
    assert forall i :: 0 <= i < |runq.elems| ==> runq.elems[i] in runq.elems;
    q.Remove(p, k);
    assert forall o :: o in runq.elems ==> o.next == old(o.next) && o.prev == old(o.prev);
    p.state := Runnable;
    runq.PushFront(p);
  }

  /** Wakes every process of a queue: the loop ends with all of them in the run queue, the first one furthest back. */
  method WakeAll(q: Queue, runq: Queue)
    requires q != runq && q.Valid() && runq.Valid() && Apart(q.elems, runq.elems)
    requires forall p :: p in All(q.elems) ==> p.state == Blocked
    modifies q, runq, All(q.elems), All(runq.elems)`prev
    ensures q.Valid() && runq.Valid() && q.elems == []
    ensures runq.elems == Reversed(old(q.elems)) + old(runq.elems)
    ensures forall p :: p in All(old(q.elems)) ==> p.state == Runnable
  {
    ghost var all, ready := q.elems, runq.elems;
    hide Queue.Valid;
    hide Distinct;
    while q.front != null
      invariant q.Valid() && runq.Valid() && Apart(q.elems, runq.elems)
      invariant Onto(q.elems, runq.elems) == Onto(all, ready)
      invariant All(q.elems) <= All(all) && All(runq.elems) <= All(all) + All(ready)
      invariant forall p :: p in All(all) ==> p.state == if p in All(q.elems) then Blocked else Runnable
      decreases |q.elems|
    {
      WakeFront(q, runq, q.front);
    }
    OntoReversed(all, ready);
  }

  /** The processes of q moved one by one to the front of r. */
  ghost function Onto(q: seq<Proc>, r: seq<Proc>): seq<Proc> {
    if q == [] then r else Onto(q[1..], [q[0]] + r)
  }

  lemma {:induction false} OntoReversed(q: seq<Proc>, r: seq<Proc>)
    ensures Onto(q, r) == Reversed(q) + r
  {
    if q != [] {
      OntoReversed(q[1..], [q[0]] + r);
    }
  }

  /** Wake on the process at the front. */
  method WakeFront(q: Queue, runq: Queue, p: Proc)
    requires q != runq && q.Valid() && runq.Valid() && Apart(q.elems, runq.elems)
    requires q.elems != [] && q.elems[0] == p && p.state == Blocked
    modifies q, runq, p`state, All(q.elems)`next, All(q.elems)`prev, All(runq.elems)`prev
    ensures q.Valid() && runq.Valid() && Apart(q.elems, runq.elems)
    ensures q.elems == old(q.elems)[1..] && runq.elems == [p] + old(runq.elems) && p.state == Runnable
    ensures p !in q.elems && All(old(q.elems)) == All(q.elems) + {p}
    ensures All(runq.elems) == All(old(runq.elems)) + {p}
  {
    hide Distinct;
    hide Queue.Valid;
    ghost var e, r := q.elems, runq.elems;
    DroppedDifferent(e, 0);
    Wake(q, runq, p, 0);
    assert q.elems == e[1..];
    FrontOf(e, r, p);
  }

  lemma FrontOf(e: seq<Proc>, r: seq<Proc>, p: Proc)
    requires e != [] && e[0] == p
    ensures All(e) == All(e[1..]) + {p} && All([p] + r) == All(r) + {p}
  {
    assert e == [p] + e[1..];
  }
}
