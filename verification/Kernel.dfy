/** The scheduler loop and the exit and wait4 system calls (rekernel/schedule.d, rekernel/syscall.d, rekernel/proc.d), on
    the linked queues.  The three queues share the links of the processes, so no process may be on two of them.  Each
    operation is one step of the protocol. */
module Kernel {
  import opened Base
  import opened Vectors
  import opened Protocol
  import opened Queues

  /** How a call of wait4, or its continuation after a wakeup, leaves the CPU. */
  datatype WaitResult = EInval | EChild | Child(pid: nat) | Sleeping

  ghost function Pids(q: seq<Proc>): (s: seq<nat>)
    ensures |s| == |q| && forall i :: 0 <= i < |q| ==> s[i] == q[i].pid
  {
    seq(|q|, i requires 0 <= i < |q| => q[i].pid)
  }

  /** Processes by number: each under its own, with the parents that the forest says. */
  ghost predicate Tabled(f: Forest, table: map<nat, Proc>) {
    && table.Keys == f.procs
    && (forall n :: n in table ==> table[n].pid == n)
    && (forall n :: n in table && n in f.parent ==> f.parent[n] in table && table[n].parent == table[f.parent[n]])
    && (forall n :: n in table && n !in f.parent ==> table[n].parent == null)
  }

  lemma TabledOne(f: Forest, table: map<nat, Proc>, p: Proc)
    requires Tabled(f, table) && p in table.Values
    ensures p.pid in table && table[p.pid] == p
  {
  }

  /** A process is the child of another as the forest has it. */
  lemma ParentIs(f: Forest, table: map<nat, Proc>, z: Proc, p: Proc)
    requires Tabled(f, table) && z in table.Values && p in table.Values
    ensures z.parent == p <==> f.IsChild(z.pid, p.pid)
  {
    TabledOne(f, table, z);
    TabledOne(f, table, p);
  }

  lemma PidsIn(f: Forest, table: map<nat, Proc>, q: seq<Proc>, p: Proc)
    requires Tabled(f, table) && All(q) <= table.Values && p in table.Values
    ensures p.pid in Pids(q) <==> p in q
  {
    TabledOne(f, table, p);
    if p.pid in Pids(q) {
      var i :| 0 <= i < |q| && Pids(q)[i] == p.pid;
      assert q[i] in All(q);
      TabledOne(f, table, q[i]);
    }
    if p in q {
      var i :| 0 <= i < |q| && q[i] == p;
      assert Pids(q)[i] == p.pid;
    }
  }

  /** Taking one process out of a queue takes its number out of the numbers. */
  lemma {:induction false} WithoutAt(s: seq<nat>, k: nat)
    requires k < |s| && s[k] !in s[..k]
    ensures Without(s, s[k]) == s[..k] + s[k + 1..]
  {
    if k > 0 {
      assert s[0] in s[..k];
      assert s[1..][..k - 1] == s[1..k];
      WithoutAt(s[1..], k - 1);
      assert s[..k] == [s[0]] + s[1..k];
    }
  }

  lemma DroppedPids(f: Forest, table: map<nat, Proc>, q: seq<Proc>, k: nat)
    requires Tabled(f, table) && All(q) <= table.Values && Distinct(q) && k < |q|
    ensures Pids(Dropped(q, k)) == Without(Pids(q), q[k].pid)
  {
    var s := Pids(q);
    assert All(q[..k]) <= All(q);
    PidsIn(f, table, q[..k], q[k]) by { assert q[k] in All(q); }
    assert s[..k] == Pids(q[..k]);
    WithoutAt(s, k);
    assert Pids(Dropped(q, k)) == s[..k] + s[k + 1..];
  }

  ghost function States(table: map<nat, Proc>): map<nat, State>
    reads table.Values`state
  {
    map n | n in table :: table[n].state
  }

  ghost function Wqs(table: map<nat, Proc>): map<nat, Wq>
    reads table.Values`wq
  {
    map n | n in table :: table[n].wq
  }

  ghost function Kids(table: map<nat, Proc>): map<nat, seq<nat>>
    reads table.Values`children
  {
    map n | n in table :: Pids(table[n].children)
  }

  /** What every step keeps: the invariant of the protocol, and that a process woken inside wait4 has a child to reap. */
  ghost predicate Kept(f: Forest, s: Sys) {
    Inv(f, s) && WokenForCause(f, s)
  }

  ghost predicate KidsKnown(table: map<nat, Proc>)
    reads table.Values`children
  {
    forall n :: n in table ==> All(table[n].children) <= table.Values
  }

  class Kernel {
    const runq: Queue
    const waitq: Queue
    const exitq: Queue
    var running: Proc?
    ghost const f: Forest
    ghost const table: map<nat, Proc>
    ghost var waiting: set<nat>
    ghost var reaped: set<nat>

    /** The queues hold processes of the table, and no process is on two of them, or on one while it runs. */
    ghost predicate Wired()
      reads this`running, runq, waitq, exitq, table.Values`next, table.Values`prev
    {
      && runq != waitq && runq != exitq && waitq != exitq
      && All(runq.elems) <= table.Values && All(waitq.elems) <= table.Values && All(exitq.elems) <= table.Values
      && runq.Valid() && waitq.Valid() && exitq.Valid()
      && All(runq.elems) !! All(waitq.elems) && All(runq.elems) !! All(exitq.elems)
      && All(waitq.elems) !! All(exitq.elems)
      && (running != null ==>
            && running in table.Values && running !in All(runq.elems) && running !in All(waitq.elems)
            && running !in All(exitq.elems))
      && Tabled(f, table)
    }

    /** The tables as the protocol has them. */
    ghost function Abs(): Sys
      requires Wired()
      reads this, runq, waitq, exitq, table.Values
    {
      Sys(Pids(runq.elems), Pids(waitq.elems), Pids(exitq.elems), if running == null then None else Some(running.pid),
          States(table), Wqs(table), Kids(table), waiting, reaped)
    }

    ghost predicate Valid()
      reads this, runq, waitq, exitq, table.Values
    {
      Wired() && KidsKnown(table) && Kept(f, Abs())
    }

    lemma Facts()
      requires Wired()
      ensures Tabled(f, table) && (running != null ==> running in table.Values)
      ensures All(runq.elems) <= table.Values && All(waitq.elems) <= table.Values && All(exitq.elems) <= table.Values
      ensures exitq.Valid() && Distinct(waitq.elems) && Distinct(exitq.elems)
      ensures runq != waitq && runq != exitq && waitq != exitq
    {
      hide Tabled;
      hide Queue.Valid;
      hide Distinct;
    }

    /** A forest of processes that are all ready to run, on a run queue in some order. */
    constructor (f: Forest, table: map<nat, Proc>, runq: Queue)
      requires Tabled(f, table) && runq.Valid() && All(runq.elems) <= table.Values
      requires KidsKnown(table)
      requires Start(f, Sys(Pids(runq.elems), [], [], None, States(table), Wqs(table), Kids(table), {}, {}))
      ensures Valid() && Start(f, Abs()) && this.f == f && this.table == table && this.runq == runq
    {
      hide Tabled;
      hide Kept;
      hide Start;
      hide Queue.Valid;
      hide Distinct;
      hide States;
      hide Wqs;
      hide Kids;
      hide KidsKnown;
      ghost var s := Sys(Pids(runq.elems), [], [], None, States(table), Wqs(table), Kids(table), {}, {});
      StartKept(f, s);
      this.f, this.table, this.runq := f, table, runq;
      waitq := new Queue();
      exitq := new Queue();
      running, waiting, reaped := null, {}, {};
      new;
      assert Pids([]) == [];
      assert Abs() == s;
    }

    // Moves between queues: the links.

    method PopRun() returns (p: Proc?)
      requires Wired() && running == null
      modifies this`running, runq, table.Values`next, table.Values`prev
      ensures Wired() && running == p
      ensures old(runq.elems) == [] ==> p == null && runq.elems == []
      ensures old(runq.elems) != [] ==>
                p == old(runq.elems)[|old(runq.elems)| - 1] && runq.elems == old(runq.elems)[..|old(runq.elems)| - 1]
    {
      hide Tabled;
      hide Queue.Valid;
      ghost var q := runq.elems;
      p := runq.PopBack();
      running := p;
      if p != null {
        assert q[|q| - 1] in All(q) && q[|q| - 1] !in q[..|q| - 1];
        assert All(runq.elems) <= All(q);
      }
    }

    /** The running process goes to the front of a queue. */
    method Push(q: Queue)
      requires Wired() && running != null && (q == runq || q == waitq || q == exitq)
      modifies this`running, q, table.Values`next, table.Values`prev
      ensures Wired() && running == null && q.elems == [old(running)] + old(q.elems)
    {
      hide Tabled;
      hide Queue.Valid;
      hide Distinct;
      ghost var p, s := running, q.elems;
      q.PushFront(running);
      running := null;
      assert All(q.elems) == All(s) + {p};
    }

    /** A process leaves the exit queue. */
    method Discard(z: Proc, ghost k: nat)
      requires Wired() && k < |exitq.elems| && exitq.elems[k] == z
      modifies exitq, table.Values`next, table.Values`prev
      ensures Wired() && exitq.elems == Dropped(old(exitq.elems), k)
    {
      hide Tabled;
      hide Queue.Valid;
      hide Distinct;
      ghost var s := exitq.elems;
      DroppedDifferent(s, k);
      exitq.Remove(z, k);
      assert All(exitq.elems) <= All(s);
    }

    /** A blocked process goes from the wait queue to the run queue. */
    method WakeUp(p: Proc, ghost k: nat)
      requires Wired() && k < |waitq.elems| && waitq.elems[k] == p && p.state == Blocked
      modifies waitq, runq, p`state, table.Values`next, table.Values`prev
      ensures Wired() && p.state == Runnable
      ensures waitq.elems == Dropped(old(waitq.elems), k) && runq.elems == [p] + old(runq.elems)
    {
      hide Tabled;
      hide Queue.Valid;
      hide Distinct;
      ghost var w, r := waitq.elems, runq.elems;
      assert forall o :: o in w ==> o in All(w);
      assert forall o :: o in r ==> o in All(r);
      assert p in All(w);
      DroppedDifferent(w, k);
      Queues.Wake(waitq, runq, p, k);
      assert All(waitq.elems) == All(w) - {p};
      assert All(runq.elems) == All(r) + {p};
    }

    /** p.state = ...; p.wq = ... */
    method SetState(p: Proc, s: State, q: Wq)
      requires Tabled(f, table) && p in table.Values
      modifies p`state, p`wq
      ensures p.state == s
      ensures States(table) == old(States(table))[p.pid := s] && Wqs(table) == old(Wqs(table))[p.pid := q]
    {
      TabledOne(f, table, p);
      p.state, p.wq := s, q;
    }

    // The operations.

    /** runq.pop_back() in runnable_proc, and the switch to that process; null is one more turn of its loop. */
    method RunnableProc() returns (p: Proc?)
      requires Valid() && running == null
      modifies this`running, runq, table.Values`next, table.Values`prev
      ensures Valid() && p == running
      ensures if old(runq.elems) == [] then p == null && Abs() == old(Abs())
              else p == old(runq.elems)[|old(runq.elems)| - 1] && IsStep(f, old(Abs()), Pick, Abs())
      ensures (exists n :: n in table && table[n].state != Exited) ==> p != null
    {
      hide Kept;
      hide IsStep;
      hide Wired;
      hide KidsKnown;
      hide Wqs;
      hide Kids;
      hide Tabled;
      hide Distinct;
      hide Queue.Valid;
      ghost var s, q := Abs(), runq.elems;
      Facts();
      if n :| n in table && table[n].state != Exited {
        AliveRuns(f, s, n);
      }
      p := PopRun();
      if q != [] {
        PidsBack(q);
        PickStep(f, s);
      }
    }

    /** The switch back to schedule of a process that gave up the CPU and is still runnable. */
    method YieldCpu()
      requires Valid() && running != null && running.pid !in waiting
      modifies this`running, runq, table.Values`next, table.Values`prev
      ensures Valid() && IsStep(f, old(Abs()), Yield, Abs())
      ensures running == null && runq.elems == [old(running)] + old(runq.elems)
    {
      hide Kept;
      hide IsStep;
      hide Wired;
      hide KidsKnown;
      hide Tabled;
      hide Wqs;
      hide Kids;
      ghost var s, p, q := Abs(), running, runq.elems;
      Facts();
      TabledOne(f, table, running);
      YieldStep(f, s);
      if running.state == Runnable {
        Push(runq);
      }
      PidsFront(p, q);
    }

    /** Proc.block with its queue given by the new state: the process leaves the CPU. */
    method Block(s: State)
      requires Wired() && running != null && s != Runnable
      modifies this`running, running`state, running`wq, waitq, exitq, table.Values`next, table.Values`prev
      ensures Wired() && running == null && old(running).state == s
      ensures var p := old(running);
              && States(table) == old(States(table))[p.pid := s]
              && Wqs(table) == old(Wqs(table))[p.pid := if s == Blocked then WaitQueue else ExitQueue]
              && waitq.elems == (if s == Blocked then [p] + old(waitq.elems) else old(waitq.elems))
              && exitq.elems == (if s == Exited then [p] + old(exitq.elems) else old(exitq.elems))
    {
      hide Wired;
      hide Tabled;
      hide States;
      hide Wqs;
      Facts();
      SetState(running, s, if s == Blocked then WaitQueue else ExitQueue);
      if s == Blocked {
        Push(waitq);
      } else {
        Push(exitq);
      }
    }

    /** The first part of sys_exit: a parent blocked on the wait queue is woken. */
    method WakeParent(p: Proc)
      requires Wired() && p in table.Values && Placed(f, Abs())
      modifies waitq, runq, table.Values`state, table.Values`next, table.Values`prev
      ensures Wired() && Abs() == Protocol.Wake(f, old(Abs()), p.pid)
      ensures var q := p.parent;
              if q != null && old(q.state) == Blocked && old(q.wq) == WaitQueue
              then q.state == Runnable && q !in waitq.elems && runq.elems == [q] + old(runq.elems)
              else waitq.elems == old(waitq.elems) && runq.elems == old(runq.elems)
    {
      hide Wired;
      hide Placed;
      hide Distinct;
      hide Without;
      hide Queue.Valid;
      hide Kids;
      hide Tabled;
      ghost var s, r := Abs(), runq.elems;
      Facts();
      ParentFacts(f, table, s, p);
      if p.parent != null && p.parent.state == Blocked && p.parent.wq == WaitQueue {
        var q := p.parent;
        ghost var k := WaiterAt(f, table, s, waitq.elems, q);
        DroppedPids(f, table, waitq.elems, k);
        DroppedDifferent(waitq.elems, k);
        TabledOne(f, table, q);
        WakeUp(q, k);
        StatesAfter(s.state, q);
        PidsFront(q, r);
      }
    }

    lemma RunningRunnable()
      requires Valid() && running != null
      ensures running.state == Runnable
    {
      hide KidsKnown;
      hide Queue.Valid;
      TabledOne(f, table, running);
      RunningIs(f, Abs());
      hide Kept;
    }

    /** One process changed its state. */
    lemma StatesAfter(before: map<nat, State>, q: Proc)
      requires Tabled(f, table) && q.pid in table && table[q.pid] == q && before.Keys == table.Keys
      requires forall n :: n in table && table[n] != q ==> before[n] == table[n].state
      ensures States(table) == before[q.pid := q.state]
    {
    }

    method SysExit()
      requires Valid() && running != null && running.pid !in waiting
      modifies this`running, waitq, runq, exitq, table.Values`state, table.Values`wq, table.Values`next, table.Values`prev
      ensures Valid() && IsStep(f, old(Abs()), Exit, Abs())
      ensures var p := old(running); running == null && p.state == Exited && exitq.elems == [p] + old(exitq.elems)
      ensures var q := old(running).parent;
              if q != null && old(q.state) == Blocked && old(q.wq) == WaitQueue
              then q.state == Runnable && q !in waitq.elems && runq.elems == [q] + old(runq.elems)
              else waitq.elems == old(waitq.elems) && runq.elems == old(runq.elems)
    {
      hide Wired;
      hide Kept;
      hide IsStep;
      hide KidsKnown;
      hide Protocol.Wake;
      hide States;
      hide Wqs;
      hide Kids;
      hide Placed;
      hide Tabled;
      hide Distinct;
      hide Queue.Valid;
      ghost var s, p, e := Abs(), running, exitq.elems;
      Facts();
      ExitStep(f, s);
      RunningRunnable();
      WakeParent(running);
      Block(Exited);
      PidsFront(p, e);
    }

    /** p.children.unordered_remove of the first entry that is z */
    method Unlist(p: Proc, z: Proc)
      requires Tabled(f, table) && p in table.Values && z in table.Values && KidsKnown(table)
      modifies p`children
      ensures KidsKnown(table)
      ensures Kids(table) == old(Kids(table))[p.pid := Unlisted(old(Pids(p.children)), z.pid)]
    {
      hide Tabled;
      hide Unlisted;
      TabledOne(f, table, p);
      ghost var c := p.children;
      assert All(c) <= table.Values;
      var i := 0;
      while i < |p.children|
        invariant i <= |p.children| && p.children == c && z !in c[..i]
        decreases |p.children| - i
      {
        if p.children[i] == z {
          UnlistedPids(f, table, c, z, i);
          p.children := RemoveAt(p.children, i);
          KidsAfter(old(Kids(table)), p);
          return;
        }
        i := i + 1;
      }
      UnlistedPids(f, table, c, z, i);
      KidsAfter(old(Kids(table)), p);
    }

    /** One process changed its child list. */
    lemma KidsAfter(before: map<nat, seq<nat>>, p: Proc)
      requires Tabled(f, table) && p.pid in table && table[p.pid] == p && before.Keys == table.Keys
      requires forall n :: n in table && table[n] != p ==> before[n] == Pids(table[n].children)
      ensures Kids(table) == before[p.pid := Pids(p.children)]
    {
    }

    /** The search of wait4: the exit queue from its front, link by link, for a child of p. */
    method FindZombie(p: Proc) returns (zombie: Proc?, ghost k: nat)
      requires Wired() && p in table.Values
      ensures zombie != null ==> k < |exitq.elems| && exitq.elems[k] == zombie && zombie.parent == p
      ensures zombie != null ==> forall j :: 0 <= j < k ==> exitq.elems[j].parent != p
      ensures zombie == null ==> forall z :: z in exitq.elems ==> z.parent != p
      ensures FirstZombie(f, Pids(exitq.elems), p.pid) == if zombie == null then None else Some(zombie.pid)
    {
      hide Wired;
      hide FirstZombie;
      hide Tabled;
      hide Distinct;
      hide Queue.Valid;
      hide Pids;
      ghost var q, s := exitq.elems, Pids(exitq.elems);
      Facts();
      zombie, k := exitq.front, 0;
      assert s[0..] == s;
      while zombie != null
        invariant 0 <= k <= |q| && zombie == if k < |q| then q[k] else null
        invariant forall j :: 0 <= j < k ==> q[j].parent != p
        invariant FirstZombie(f, s, p.pid) == FirstZombie(f, s[k..], p.pid)
        decreases |q| - k
      {
        assert q[k] in All(q);
        ParentIs(f, table, zombie, p);
        ZombieNext(f, s, k, p.pid);
        if zombie.parent == p {
          return;
        }
        exitq.NextOf(k);
        zombie := zombie.next;
        k := k + 1;
      }
      ZombieNone(f, s, k, p.pid);
    }

    /** One turn of the wait4 loop. */
    method ScanOnce() returns (r: WaitResult)
      requires Valid() && running != null
      modifies this, waitq, exitq, table.Values
      ensures Wired() && KidsKnown(table)
      ensures Scanned(f, old(Abs()), old(running.pid), Abs())
      ensures r == match FirstZombie(f, old(Abs()).exitq, old(running.pid)) case Some(z) => Child(z) case None => Sleeping
      ensures r.Child? ==>
                && running == old(running)
                && exists k :: 0 <= k < |old(exitq.elems)| && old(exitq.elems)[k].pid == r.pid
                     && old(exitq.elems)[k].parent == running
                     && (forall j :: 0 <= j < k ==> old(exitq.elems)[j].parent != running)
                     && exitq.elems == old(exitq.elems)[..k] + old(exitq.elems)[k + 1..]
      ensures r == Sleeping ==>
                && (forall z :: z in old(exitq.elems) ==> z.parent != old(running)) && exitq.elems == old(exitq.elems)
                && running == null && old(running).state == Blocked && waitq.elems == [old(running)] + old(waitq.elems)
    {
      hide Wired;
      hide Kept;
      hide KidsKnown;
      hide States;
      hide Wqs;
      hide Kids;
      hide FirstZombie;
      hide Tabled;
      hide Distinct;
      hide Queue.Valid;
      hide Scanned;
      hide Reaped;
      hide Stopped;
      ghost var s := Abs();
      var p := running;
      Facts();
      var zombie, k := FindZombie(p);
      if zombie != null {
        Reap(p, zombie, k);
        ScanReaps(f, s, p.pid, zombie.pid);
        assert exitq.elems == old(exitq.elems)[..k] + old(exitq.elems)[k + 1..];
        return Child(zombie.pid);
      }
      Sleep();
      ScanSleeps(f, s, p.pid);
      r := Sleeping;
    }

    /** wait4 found a zombie child of p. */
    method Reap(p: Proc, z: Proc, ghost k: nat)
      requires Valid() && p in table.Values && k < |exitq.elems| && exitq.elems[k] == z
      modifies p`children, exitq, table.Values`next, table.Values`prev, this`reaped, this`waiting
      ensures Wired() && KidsKnown(table)
      ensures p.pid in old(Abs()).children && Abs() == Reaped(old(Abs()), p.pid, z.pid)
      ensures exitq.elems == Dropped(old(exitq.elems), k)
    {
      hide KidsKnown;
      hide Wired;
      hide Queue.Valid;
      hide Distinct;
      hide Kept;
      hide Without;
      hide Unlisted;
      hide States;
      hide Wqs;
      hide Tabled;
      hide Kids;
      hide Pids;
      hide Dropped;
      ghost var s := Abs();
      Facts();
      KidsAt(f, table, p);
      assert z in All(exitq.elems);
      DroppedPids(f, table, exitq.elems, k);
      Unlist(p, z);
      Discard(z, k);
      reaped, waiting := reaped + {z.pid}, waiting - {p.pid};
    }

    /** wait4 found none. */
    method Sleep()
      requires Valid() && running != null
      modifies this`running, this`waiting, running`state, running`wq, waitq, exitq, table.Values`next, table.Values`prev
      ensures Wired() && KidsKnown(table) && Abs() == Stopped(old(Abs()), old(running.pid))
      ensures running == null && old(running).state == Blocked && waitq.elems == [old(running)] + old(waitq.elems)
      ensures exitq.elems == old(exitq.elems)
    {
      hide Wired;
      hide KidsKnown;
      hide Kept;
      hide States;
      hide Wqs;
      hide Kids;
      hide Tabled;
      hide Distinct;
      hide Queue.Valid;
      ghost var p, w := running, waitq.elems;
      Facts();
      Block(Blocked);
      PidsFront(p, w);
      waiting := waiting + {p.pid};
    }

    method SysWait4(pid: int, wstatus: nat) returns (r: WaitResult)
      requires Valid() && running != null && running.pid !in waiting
      modifies this, waitq, exitq, table.Values
      ensures Valid()
      ensures r == EInval <==> pid != -1 || wstatus != 0
      ensures r == EInval ==> Abs() == old(Abs())
      ensures r != EInval ==> IsStep(f, old(Abs()), Wait, Abs())
      ensures r != EInval ==> (r == EChild <==> old(running.children) == [])
      ensures r == EChild ==> Abs() == old(Abs())
      ensures r != EInval && r != EChild ==>
                && (r.Child? <==> HasZombie(f, old(Abs()), old(running.pid)))
                && (r.Child? <==> exists z :: z in old(exitq.elems) && z.parent == old(running))
      // the first child from the front of the exit queue, which leaves the queue and counts as reaped
      ensures r.Child? ==>
                && f.IsChild(r.pid, old(running.pid)) && r.pid in old(Abs()).exitq && running == old(running)
                && Abs().reaped == old(Abs()).reaped + {r.pid} && r.pid !in Abs().exitq
                && exists k :: 0 <= k < |old(exitq.elems)| && old(exitq.elems)[k].pid == r.pid
                     && old(exitq.elems)[k].parent == running
                     && (forall j :: 0 <= j < k ==> old(exitq.elems)[j].parent != running)
                     && exitq.elems == old(exitq.elems)[..k] + old(exitq.elems)[k + 1..]
      ensures r == Sleeping ==>
                && running == null && old(running).state == Blocked && waitq.elems == [old(running)] + old(waitq.elems)
                && Abs().reaped == old(Abs()).reaped && exitq.elems == old(exitq.elems)
    {
      hide Wired;
      hide Kept;
      hide IsStep;
      hide KidsKnown;
      hide Scanned;
      hide FirstZombie;
      hide HasZombie;
      hide States;
      hide Wqs;
      hide Kids;
      hide Tabled;
      hide Distinct;
      hide Queue.Valid;
      if pid != -1 || wstatus != 0 {
        return EInval;
      }
      ghost var s := Abs();
      Facts();
      KidsAt(f, table, running);
      if |running.children| == 0 {
        WaitNone(f, s);
        return EChild;
      }
      assert s.children[running.pid] != [];
      r := ScanOnce();
      ScanFacts(f, s, s.running.value, Abs());
      WaitStep(f, s, Wait, Abs());
    }

    /** wait4 goes on after its process was woken and picked. */
    method ResumeWait4() returns (r: WaitResult)
      requires Valid() && running != null && running.pid in waiting
      modifies this, waitq, exitq, table.Values
      ensures Valid() && IsStep(f, old(Abs()), Rescan, Abs())
      ensures r.Child? && f.IsChild(r.pid, old(running.pid)) && r.pid in old(Abs()).exitq && running == old(running)
      ensures Abs().reaped == old(Abs()).reaped + {r.pid} && r.pid !in Abs().exitq
      ensures exists k :: 0 <= k < |old(exitq.elems)| && old(exitq.elems)[k].pid == r.pid
                && old(exitq.elems)[k].parent == running
                && (forall j :: 0 <= j < k ==> old(exitq.elems)[j].parent != running)
                && exitq.elems == old(exitq.elems)[..k] + old(exitq.elems)[k + 1..]
    {
      hide HasZombie;
      hide Wired;
      hide Kept;
      hide IsStep;
      hide KidsKnown;
      hide Scanned;
      hide FirstZombie;
      hide States;
      hide Wqs;
      hide Kids;
      ghost var s := Abs();
      Facts();
      WokenHasZombie(f, s);
      ZombieThere(f, s, running.pid);
      r := ScanOnce();
      ScanFacts(f, s, s.running.value, Abs());
      WaitStep(f, s, Rescan, Abs());
    }
  }

  // The steps, apart from the heap.

  lemma StartKept(f: Forest, s: Sys)
    requires Start(f, s)
    ensures Kept(f, s)
  {
    StartInv(f, s);
    hide Inv;
  }

  /** While the CPU is free and some process has not exited, the run queue is not empty. */
  lemma AliveRuns(f: Forest, s: Sys, n: nat)
    requires Kept(f, s) && s.running == None && n in s.state && s.state[n] != Exited
    ensures s.runq != []
  {
    hide Inv;
    hide WokenForCause;
    InvParts(f, s);
    SomeoneRuns(f, s, n);
  }

  /** A process that goes on inside wait4 has a zombie child. */
  lemma WokenHasZombie(f: Forest, s: Sys)
    requires Kept(f, s) && s.running.Some? && s.running.value in s.waiting
    ensures HasZombie(f, s, s.running.value)
  {
    SleeperHasNoZombie(f, s, s.running.value);
    hide Inv;
    hide WokenForCause;
    hide HasZombie;
  }

  lemma PidsFront(p: Proc, q: seq<Proc>)
    ensures Pids([p] + q) == [p.pid] + Pids(q)
  {
  }

  lemma PidsBack(q: seq<Proc>)
    requires q != []
    ensures Pids(q[..|q| - 1]) == Pids(q)[..|q| - 1]
  {
  }

  lemma PickStep(f: Forest, s: Sys)
    requires Kept(f, s) && s.running == None && s.runq != []
    ensures var n := |s.runq| - 1;
            var s' := s.(running := Some(s.runq[n]), runq := s.runq[..n]);
            IsStep(f, s, Pick, s') && Kept(f, s')
  {
    hide Inv;
    hide WokenForCause;
    StepKeeps(f, s, Pick);
    StepHasCause(f, s, Pick);
  }

  lemma YieldStep(f: Forest, s: Sys)
    requires Kept(f, s) && s.running.Some? && s.running.value !in s.waiting
    ensures var s' := s.(running := None, runq := [s.running.value] + s.runq);
            IsStep(f, s, Yield, s') && Kept(f, s')
    ensures s.running.value in s.state && s.state[s.running.value] == Runnable
  {
    RunningIs(f, s);
    hide Inv;
    hide WokenForCause;
    StepKeeps(f, s, Yield);
    StepHasCause(f, s, Yield);
  }

  lemma ExitStep(f: Forest, s: Sys)
    requires Kept(f, s) && s.running.Some? && s.running.value !in s.waiting
    ensures var p := s.running.value;
            var s' := Gone(Protocol.Wake(f, s, p), p);
            IsStep(f, s, Exit, s') && Kept(f, s') && Protocol.Wake(f, s, p).running == s.running && Placed(f, s)
            && Protocol.Wake(f, s, p).exitq == s.exitq
  {
    hide Inv;
    hide WokenForCause;
    hide Placed;
    hide Without;
    RunningIs(f, s);
    InvPlaced(f, s);
    StepKeeps(f, s, Exit);
    StepHasCause(f, s, Exit);
  }

  /** One turn of the wait4 loop. */
  ghost predicate Scanned(f: Forest, s: Sys, p: nat, s': Sys) {
    p in s.children && s' == Scan(f, s, p)
  }

  lemma ScanReaps(f: Forest, s: Sys, p: nat, z: nat)
    requires p in s.children && FirstZombie(f, s.exitq, p) == Some(z)
    ensures Scanned(f, s, p, Reaped(s, p, z))
  {
    hide FirstZombie;
  }

  lemma ScanSleeps(f: Forest, s: Sys, p: nat)
    requires Kept(f, s) && s.running == Some(p) && FirstZombie(f, s.exitq, p) == None
    ensures Scanned(f, s, p, Stopped(s, p))
  {
    RunningIs(f, s);
    hide Inv;
    hide WokenForCause;
    hide FirstZombie;
  }

  /** One turn reaps the first zombie child if there is one, and blocks if there is none. */
  lemma ScanFacts(f: Forest, s: Sys, p: nat, s': Sys)
    requires Kept(f, s) && Scanned(f, s, p, s')
    ensures match FirstZombie(f, s.exitq, p)
            case Some(z) =>
              && HasZombie(f, s, p) && z in s.exitq && f.IsChild(z, p) && s'.running == s.running
              && s'.reaped == s.reaped + {z} && (forall y :: y in s'.exitq <==> y in s.exitq && y != z)
            case None =>
              && !HasZombie(f, s, p) && s'.running == None && s'.waitq == [p] + s.waitq
              && s'.reaped == s.reaped && s'.exitq == s.exitq
  {
    InvPlaced(f, s);
    hide Kept;
    ZombieFound(f, s.exitq, p);
    hide FirstZombie;
    hide Without;
    hide Unlisted;
    match FirstZombie(f, s.exitq, p)
    case Some(z) =>
      forall y
        ensures y in s'.exitq <==> y in s.exitq && y != z
      {
        WithoutElems(s.exitq, z, y);
      }
    case None =>
  }

  lemma WaitStep(f: Forest, s: Sys, e: Event, s': Sys)
    requires Kept(f, s) && s.running.Some? && Scanned(f, s, s.running.value, s')
    requires if e == Wait then s.running.value !in s.waiting && s.children[s.running.value] != []
             else e == Rescan && s.running.value in s.waiting
    ensures IsStep(f, s, e, s') && Kept(f, s')
  {
    hide Inv;
    hide WokenForCause;
    hide Scan;
    StepKeeps(f, s, e);
    StepHasCause(f, s, e);
  }

  lemma WaitNone(f: Forest, s: Sys)
    requires Kept(f, s) && s.running.Some? && s.running.value !in s.waiting
    requires s.running.value in s.children && s.children[s.running.value] == []
    ensures IsStep(f, s, Wait, s)
  {
    hide Inv;
    hide WokenForCause;
  }

  lemma InvPlaced(f: Forest, s: Sys)
    requires Kept(f, s)
    ensures Placed(f, s)
  {
    hide Placed;
    hide Linked;
    hide NoLostWakeup;
  }

  /** The process that runs is runnable. */
  lemma RunningIs(f: Forest, s: Sys)
    requires Kept(f, s) && s.running.Some?
    ensures s.running.value in s.state && s.state[s.running.value] == Runnable && s.running.value in s.children
  {
    hide Inv;
    hide WokenForCause;
    InvPlaced(f, s);
  }

  lemma ZombieThere(f: Forest, s: Sys, p: nat)
    requires HasZombie(f, s, p)
    ensures match FirstZombie(f, s.exitq, p) case Some(z) => z in s.exitq && f.IsChild(z, p) case None => false
  {
    ZombieFound(f, s.exitq, p);
    hide FirstZombie;
  }

  lemma ZombieNext(f: Forest, q: seq<nat>, i: nat, p: nat)
    requires i < |q|
    ensures FirstZombie(f, q[i..], p) == if f.IsChild(q[i], p) then Some(q[i]) else FirstZombie(f, q[i + 1..], p)
  {
    assert q[i..][1..] == q[i + 1..];
  }

  lemma ZombieNone(f: Forest, q: seq<nat>, i: nat, p: nat)
    requires i == |q|
    ensures FirstZombie(f, q[i..], p) == None
  {
  }

  lemma ParentFacts(f: Forest, table: map<nat, Proc>, s: Sys, p: Proc)
    requires Tabled(f, table) && p in table.Values && s.state.Keys == table.Keys && s.wq.Keys == table.Keys
    ensures p.parent != null ==>
              && p.parent in table.Values && p.pid in f.parent && f.parent[p.pid] == p.parent.pid
              && p.parent.pid in table && table[p.parent.pid] == p.parent
    ensures p.parent == null ==> p.pid !in f.parent
  {
    TabledOne(f, table, p);
  }

  /** A blocked process is on the wait queue. */
  lemma WaiterAt(f: Forest, table: map<nat, Proc>, s: Sys, q: seq<Proc>, p: Proc) returns (k: nat)
    requires Tabled(f, table) && Placed(f, s) && s.waitq == Pids(q) && All(q) <= table.Values && p in table.Values
    requires p.pid in s.state && s.state[p.pid] == Blocked
    ensures k < |q| && q[k] == p
  {
    PidsIn(f, table, q, p);
    k :| 0 <= k < |q| && q[k] == p;
  }

  lemma KidsAt(f: Forest, table: map<nat, Proc>, p: Proc)
    requires Tabled(f, table) && p in table.Values
    ensures p.pid in Kids(table) && Kids(table)[p.pid] == Pids(p.children)
  {
    TabledOne(f, table, p);
    hide Tabled;
    hide Pids;
  }

  lemma UnlistedPids(f: Forest, table: map<nat, Proc>, c: seq<Proc>, z: Proc, i: nat)
    requires Tabled(f, table) && All(c) <= table.Values && z in table.Values
    requires i <= |c| && z !in c[..i] && (i < |c| ==> c[i] == z)
    ensures Unlisted(Pids(c), z.pid) == if i < |c| then Pids(RemoveAt(c, i)) else Pids(c)
    ensures i < |c| ==> All(RemoveAt(c, i)) <= All(c)
  {
    assert All(c[..i]) <= All(c);
    PidsIn(f, table, c[..i], z);
    assert Pids(c)[..i] == Pids(c[..i]);
    FirstIndex(Pids(c), z.pid, i);
    if i < |c| {
      assert Pids(RemoveAt(c, i)) == RemoveAt(Pids(c), i);
    }
  }

  lemma {:induction false} FirstIndex(s: seq<nat>, x: nat, i: nat)
    requires i <= |s| && x !in s[..i] && (i < |s| ==> s[i] == x)
    ensures IndexOf(s, x) == i
  {
    if s != [] && i > 0 {
      assert s[0] in s[..i];
      assert s[1..][..i - 1] == s[1..i];
      FirstIndex(s[1..], x, i - 1);
    }
  }
}
