/** The scheduler and the exit / wait4 handshake (rekernel/schedule.d, rekernel/syscall.d, rekernel/proc.d) as steps of
    one CPU on which the kernel is not preempted.  Processes are named by number; queues are listed front first. */
module Protocol {
  import opened Base
  import opened Vectors

  datatype State = Runnable | Blocked | Exited

  /** The queue a process last blocked on. */
  datatype Wq = NoQueue | WaitQueue | ExitQueue

  /** The processes and their parents, which never change; rank falls from parent to child. */
  datatype Forest = Forest(procs: set<nat>, parent: map<nat, nat>, rank: map<nat, nat>)
  {
    ghost predicate Valid() {
      && rank.Keys == procs && parent.Keys <= procs
      && forall c :: c in parent ==> parent[c] in procs && rank[c] < rank[parent[c]]
    }

    ghost predicate IsChild(c: nat, p: nat) {
      c in parent && parent[c] == p
    }
  }

  datatype Sys = Sys(runq: seq<nat>, waitq: seq<nat>, exitq: seq<nat>, running: Option<nat>,
                     state: map<nat, State>, wq: map<nat, Wq>, children: map<nat, seq<nat>>,
                     waiting: set<nat>,  // inside the loop of sys_wait4
                     reaped: set<nat>)

  /** What happens next: the scheduler picks; the running process gives up the CPU, exits or calls wait4; or a process
      that was inside wait4 goes on with its loop. */
  datatype Event = Pick | Yield | Exit | Wait | Rescan

  function Without(q: seq<nat>, x: nat): seq<nat> {
    if q == [] then [] else if q[0] == x then q[1..] else [q[0]] + Without(q[1..], x)
  }

  /** The first process of the exit queue whose parent is p. */
  function FirstZombie(f: Forest, q: seq<nat>, p: nat): Option<nat> {
    if q == [] then None
    else if q[0] in f.parent && f.parent[q[0]] == p then Some(q[0])
    else FirstZombie(f, q[1..], p)
  }

  function IndexOf(s: seq<nat>, x: nat): (i: nat)
    ensures i <= |s| && (i < |s| ==> s[i] == x) && (x in s ==> i < |s|)
  {
    if s == [] then 0 else if s[0] == x then 0 else 1 + IndexOf(s[1..], x)
  }

  function Unlisted(s: seq<nat>, x: nat): seq<nat> {
    var i := IndexOf(s, x);
    if i < |s| then RemoveAt(s, i) else s
  }

  // The steps.

  ghost predicate Enabled(s: Sys, e: Event) {
    match e
    case Pick => s.running.None? && s.runq != []
    case Rescan => s.running.Some? && s.running.value in s.waiting
    case _ => s.running.Some? && s.running.value !in s.waiting
  }

  /** s without zombie z, which its parent p reaped. */
  ghost function Reaped(s: Sys, p: nat, z: nat): Sys
    requires p in s.children
  {
    s.(exitq := Without(s.exitq, z), children := s.children[p := Unlisted(s.children[p], z)],
       reaped := s.reaped + {z}, waiting := s.waiting - {p})
  }

  /** s with the running process p blocked on the wait queue. */
  ghost function Stopped(s: Sys, p: nat): Sys {
    s.(state := s.state[p := Blocked], wq := s.wq[p := WaitQueue], waitq := [p] + s.waitq, running := None,
       waiting := s.waiting + {p})
  }

  /** s with q moved from the wait queue to the run queue. */
  ghost function Woken(s: Sys, q: nat): Sys {
    s.(waitq := Without(s.waitq, q), state := s.state[q := Runnable], runq := [q] + s.runq)
  }

  /** s with the running process p exited. */
  ghost function Gone(w: Sys, p: nat): Sys {
    w.(state := w.state[p := Exited], wq := w.wq[p := ExitQueue], exitq := [p] + w.exitq, running := None)
  }

  /** One turn of the wait4 loop: reap the first zombie child in the exit queue, or block. */
  ghost function Scan(f: Forest, s: Sys, p: nat): Sys
    requires p in s.children
  {
    match FirstZombie(f, s.exitq, p)
    case Some(z) => Reaped(s, p, z)
    case None => Stopped(s, p)
  }

  /** The wakeup in sys_exit: of the parent, if it is blocked on the wait queue. */
  ghost function Wake(f: Forest, s: Sys, p: nat): Sys {
    if p in f.parent && f.parent[p] in s.state && f.parent[p] in s.wq
       && s.state[f.parent[p]] == Blocked && s.wq[f.parent[p]] == WaitQueue
    then Woken(s, f.parent[p])
    else s
  }

  ghost function Next(f: Forest, s: Sys, e: Event): Sys
    requires Enabled(s, e) && (s.running.Some? ==> s.running.value in s.children)
  {
    match e
    case Pick => s.(running := Some(s.runq[|s.runq| - 1]), runq := s.runq[..|s.runq| - 1])
    case Yield => s.(running := None, runq := [s.running.value] + s.runq)
    case Exit => Gone(Wake(f, s, s.running.value), s.running.value)
    case Wait => if s.children[s.running.value] == [] then s else Scan(f, s, s.running.value)
    case Rescan => Scan(f, s, s.running.value)
  }

  // The invariant.

  /** Every process that was not reaped is in exactly one place, the one that matches its state. */
  ghost predicate Placed(f: Forest, s: Sys) {
    && s.state.Keys == f.procs && s.wq.Keys == f.procs && s.children.Keys == f.procs && s.reaped <= f.procs
    && Distinct(s.runq) && Distinct(s.waitq) && Distinct(s.exitq)
    && (s.running.Some? ==> s.running.value in f.procs)
    && (forall p :: p in s.runq || p in s.waitq || p in s.exitq ==> p in f.procs)
    && (forall p :: p in f.procs ==>
          && (p in s.waitq <==> s.state[p] == Blocked) && (p in s.waitq ==> s.wq[p] == WaitQueue)
          && (p in s.exitq <==> s.state[p] == Exited && p !in s.reaped)
          && (p in s.reaped ==> s.state[p] == Exited)
          && (s.state[p] == Runnable <==> p in s.runq || s.running == Some(p))
          && !(p in s.runq && s.running == Some(p)))
  }

  /** children lists exactly the children that were not reaped, each once. */
  ghost predicate Linked(f: Forest, s: Sys)
    requires s.children.Keys == f.procs
  {
    && (forall p :: p in f.procs ==> Distinct(s.children[p]))
    && (forall p, c :: p in f.procs ==> (c in s.children[p] <==> f.IsChild(c, p) && c !in s.reaped))
  }

  /** No lost wakeup: a process blocked in wait4 still has a child, and none of its children is a zombie. */
  ghost predicate NoLostWakeup(f: Forest, s: Sys)
    requires s.children.Keys == f.procs
  {
    && (forall p :: p in s.waiting ==> p in f.procs && s.children[p] != [])
    && (forall p :: p in s.waitq ==> p in s.waiting)
    && (forall p, z :: p in s.waitq && z in s.exitq ==> !f.IsChild(z, p))
  }

  ghost predicate Inv(f: Forest, s: Sys) {
    f.Valid() && Placed(f, s) && Linked(f, s) && NoLostWakeup(f, s)
  }

  // Facts about the list functions.

  lemma {:induction false} WithoutElems(q: seq<nat>, x: nat, y: nat)
    requires Distinct(q)
    ensures y in Without(q, x) <==> y in q && y != x
  {
    if q != [] && q[0] != x {
      WithoutElems(q[1..], x, y);
    } else if q != [] {
      assert x !in q[1..];
    }
  }

  lemma {:induction false} WithoutDistinct(q: seq<nat>, x: nat)
    requires Distinct(q)
    ensures Distinct(Without(q, x))
  {
    if q != [] && q[0] != x {
      WithoutDistinct(q[1..], x);
      WithoutElems(q[1..], x, q[0]);
    }
  }

  lemma {:induction false} ZombieFound(f: Forest, q: seq<nat>, p: nat)
    ensures match FirstZombie(f, q, p)
            case Some(z) => z in q && f.IsChild(z, p)
            case None => forall z :: z in q ==> !f.IsChild(z, p)
  {
    if q != [] && !f.IsChild(q[0], p) {
      ZombieFound(f, q[1..], p);
    }
  }

  lemma UnlistedElems(s: seq<nat>, x: nat, y: nat)
    requires Distinct(s)
    ensures y in Unlisted(s, x) <==> y in s && y != x
    ensures Distinct(Unlisted(s, x))
  {
    var i := IndexOf(s, x);
    if i < |s| {
      var r := RemoveAt(s, i);
      forall j | 0 <= j < |s| && j != i
        ensures s[j] in r
      {
        assert r[if j == |s| - 1 then i else j] == s[j];
      }
    }
  }

  // Every step keeps the invariant.

  lemma PickKeeps(f: Forest, s: Sys)
    requires Inv(f, s) && Enabled(s, Pick)
    ensures Inv(f, Next(f, s, Pick))
  {
    var s' := Next(f, s, Pick);
    PickPlaced(f, s);
    PlacedKeys(f, s);
    hide Placed;
    LinkedSame(f, s, s');
    WakeupsSame(f, s, s');
    hide Linked;
    hide NoLostWakeup;
  }

  lemma PickPlaced(f: Forest, s: Sys)
    requires Placed(f, s) && s.running == None && s.runq != []
    ensures Placed(f, s.(running := Some(s.runq[|s.runq| - 1]), runq := s.runq[..|s.runq| - 1]))
  {
    var n := |s.runq| - 1;
    var p, q := s.runq[n], s.runq[..n];
    assert s.runq == q + [p];
    assert p !in q;
    assert forall y :: y in s.runq <==> y in q || y == p;
  }

  lemma WakeupsSame(f: Forest, s: Sys, s': Sys)
    requires s.children.Keys == f.procs && NoLostWakeup(f, s) && s'.children == s.children && s'.waiting == s.waiting
    requires s'.waitq == s.waitq && s'.exitq == s.exitq
    ensures NoLostWakeup(f, s')
  {
  }

  lemma YieldKeeps(f: Forest, s: Sys)
    requires Inv(f, s) && Enabled(s, Yield)
    ensures Inv(f, Next(f, s, Yield))
  {
  }

  lemma WokenPlaced(f: Forest, s: Sys, q: nat)
    requires Placed(f, s) && q in s.waitq
    ensures Placed(f, Woken(s, q))
  {
    hide Without;
    WithoutDistinct(s.waitq, q);
    forall y
      ensures y in Without(s.waitq, q) <==> y in s.waitq && y != q
    {
      WithoutElems(s.waitq, q, y);
    }
    FrontDistinct(q, s.runq);
  }

  lemma FrontDistinct(p: nat, q: seq<nat>)
    requires Distinct(q)
    ensures p !in q ==> Distinct([p] + q)
    ensures forall y :: y in [p] + q <==> y == p || y in q
  {
  }

  lemma WakePlaced(f: Forest, s: Sys, p: nat)
    requires Inv(f, s) && s.running == Some(p)
    ensures Placed(f, Wake(f, s, p))
  {
    if Wake(f, s, p) != s {
      WokenPlaced(f, s, f.parent[p]);
    }
  }

  /** After the wakeup, no waiting process is the parent of the one that exits. */
  lemma WakeClears(f: Forest, s: Sys, p: nat)
    requires Inv(f, s) && s.running == Some(p)
    ensures var w := Wake(f, s, p);
            && w.children == s.children && w.exitq == s.exitq && w.reaped == s.reaped && w.waiting == s.waiting
            && w.running == s.running
            && (forall q :: q in w.waitq ==> q in s.waitq && !f.IsChild(p, q))
  {
    var w := Wake(f, s, p);
    forall y | y in w.waitq
      ensures y in s.waitq && !f.IsChild(p, y)
    {
      if w != s {
        WithoutElems(s.waitq, f.parent[p], y);
      }
    }
  }

  lemma GonePlaced(f: Forest, w: Sys, p: nat)
    requires Placed(f, w) && w.running == Some(p)
    ensures Placed(f, Gone(w, p))
  {
    FrontDistinct(p, w.exitq);
  }

  lemma ExitKeeps(f: Forest, s: Sys)
    requires Inv(f, s) && Enabled(s, Exit)
    ensures Inv(f, Next(f, s, Exit))
  {
    hide Inv;
    hide Wake;
    hide Placed;
    hide Linked;
    hide NoLostWakeup;
    var p := s.running.value;
    InvParts(f, s);
    WakePlaced(f, s, p);
    WakeClears(f, s, p);
    GonePlaced(f, Wake(f, s, p), p);
    GoneWakeups(f, s, Wake(f, s, p), p);
    LinkedSame(f, s, Gone(Wake(f, s, p), p));
    InvOf(f, Gone(Wake(f, s, p), p));
  }

  lemma InvParts(f: Forest, s: Sys)
    requires Inv(f, s)
    ensures f.Valid() && Placed(f, s) && s.children.Keys == f.procs == s.state.Keys && Linked(f, s) && NoLostWakeup(f, s)
    ensures s.running.Some? ==> s.running.value in s.children
  {
    hide Linked;
    hide NoLostWakeup;
  }

  lemma InvOf(f: Forest, s: Sys)
    requires f.Valid() && Placed(f, s) && s.children.Keys == f.procs && Linked(f, s) && NoLostWakeup(f, s)
    ensures Inv(f, s)
  {
  }

  lemma GoneWakeups(f: Forest, s: Sys, w: Sys, p: nat)
    requires s.children.Keys == f.procs && NoLostWakeup(f, s)
    requires w.children == s.children && w.exitq == s.exitq && w.waiting == s.waiting
    requires forall q :: q in w.waitq ==> q in s.waitq && !f.IsChild(p, q)
    ensures NoLostWakeup(f, Gone(w, p))
  {
  }

  lemma LinkedSame(f: Forest, s: Sys, s': Sys)
    requires s.children.Keys == f.procs && Linked(f, s) && s'.children == s.children && s'.reaped == s.reaped
    ensures Linked(f, s')
  {
  }

  lemma PlacedKeys(f: Forest, s: Sys)
    requires Placed(f, s)
    ensures s.children.Keys == f.procs == s.state.Keys
  {
  }

  lemma ReapedPlaced(f: Forest, s: Sys, p: nat, z: nat)
    requires Placed(f, s) && p in f.procs && z in s.exitq
    ensures Placed(f, Reaped(s, p, z))
  {
    WithoutDistinct(s.exitq, z);
    forall y
      ensures y in Without(s.exitq, z) <==> y in s.exitq && y != z
    {
      WithoutElems(s.exitq, z, y);
    }
    hide Without;
    hide Unlisted;
  }

  lemma ReapedLinked(f: Forest, s: Sys, p: nat, z: nat)
    requires s.children.Keys == f.procs && Linked(f, s) && p in f.procs && f.IsChild(z, p)
    ensures Linked(f, Reaped(s, p, z))
  {
    forall y
      ensures y in Unlisted(s.children[p], z) <==> y in s.children[p] && y != z
    {
      UnlistedElems(s.children[p], z, y);
    }
    UnlistedElems(s.children[p], z, z);
    hide Unlisted;
    hide Without;
  }

  lemma ReapedWakeups(f: Forest, s: Sys, p: nat, z: nat)
    requires s.children.Keys == f.procs && NoLostWakeup(f, s) && p in f.procs && p !in s.waitq && Distinct(s.exitq)
    ensures NoLostWakeup(f, Reaped(s, p, z))
  {
    hide Unlisted;
    forall y | y in Without(s.exitq, z)
      ensures y in s.exitq
    {
      WithoutElems(s.exitq, z, y);
    }
  }

  lemma ReapKeeps(f: Forest, s: Sys, p: nat, z: nat)
    requires Inv(f, s) && s.running == Some(p) && FirstZombie(f, s.exitq, p) == Some(z)
    ensures Inv(f, Scan(f, s, p))
  {
    ZombieFound(f, s.exitq, p);
    ReapedPlaced(f, s, p, z);
    ReapedLinked(f, s, p, z);
    assert p !in s.waitq;
    ReapedWakeups(f, s, p, z);
    hide Placed;
    hide Linked;
    hide NoLostWakeup;
    hide Reaped;
  }

  lemma StoppedPlaced(f: Forest, s: Sys, p: nat)
    requires Placed(f, s) && s.running == Some(p)
    ensures Placed(f, Stopped(s, p))
  {
    FrontDistinct(p, s.waitq);
  }

  lemma BlockKeeps(f: Forest, s: Sys, p: nat)
    requires Inv(f, s) && s.running == Some(p) && s.children[p] != [] && FirstZombie(f, s.exitq, p) == None
    ensures Inv(f, Scan(f, s, p))
  {
    ZombieFound(f, s.exitq, p);
    StoppedPlaced(f, s, p);
    LinkedSame(f, s, Stopped(s, p));
    hide Placed;
    hide Linked;
    hide FirstZombie;
  }

  lemma ScanKeeps(f: Forest, s: Sys, p: nat)
    requires Inv(f, s) && s.running == Some(p) && s.children[p] != []
    ensures Inv(f, Scan(f, s, p))
  {
    match FirstZombie(f, s.exitq, p)
    case Some(z) => ReapKeeps(f, s, p, z);
    case None => BlockKeeps(f, s, p);
  }

  lemma StepKeeps(f: Forest, s: Sys, e: Event)
    requires Inv(f, s) && Enabled(s, e)
    ensures Inv(f, Next(f, s, e))
  {
    match e
    case Pick => PickKeeps(f, s);
    case Yield => YieldKeeps(f, s);
    case Exit => ExitKeeps(f, s);
    case Wait =>
      if s.children[s.running.value] != [] {
        ScanKeeps(f, s, s.running.value);
      }
    case Rescan => ScanKeeps(f, s, s.running.value);
  }

  // Runs.

  /** Any forest, every process ready to run, in any order. */
  ghost predicate Start(f: Forest, s: Sys) {
    && f.Valid() && Distinct(s.runq) && (forall p :: p in s.runq <==> p in f.procs)
    && s.waitq == [] && s.exitq == [] && s.running == None && s.waiting == {} && s.reaped == {}
    && s.state == (map p | p in f.procs :: Runnable) && s.wq == (map p | p in f.procs :: NoQueue)
    && s.children.Keys == f.procs && Linked(f, s)
  }

  /** Runs start from every forest, with its child lists and its processes on the run queue in whatever order. */
  lemma StartsAnywhere(f: Forest, s: Sys)
    requires f.rank.Keys == f.procs && f.parent.Keys <= f.procs
    requires forall c :: c in f.parent ==> f.parent[c] in f.procs && f.rank[c] < f.rank[f.parent[c]]
    requires s.waitq == [] && s.exitq == [] && s.running == None && s.waiting == {} && s.reaped == {}
    requires s.state.Keys == f.procs && forall p :: p in f.procs ==> s.state[p] == Runnable
    requires s.wq.Keys == f.procs && forall p :: p in f.procs ==> s.wq[p] == NoQueue
    requires forall p :: multiset(s.runq)[p] == if p in f.procs then 1 else 0
    requires s.children.Keys == f.procs
    requires forall p, c :: p in f.procs ==>
               multiset(s.children[p])[c] == if c in f.parent && f.parent[c] == p then 1 else 0
    ensures Start(f, s)
  {
    hide Distinct;
    hide Linked;
    RunqAll(f, s.runq);
    KidsLinked(f, s);
    assert s.state == map p | p in f.procs :: Runnable;
    assert s.wq == map p | p in f.procs :: NoQueue;
  }

  lemma RunqAll(f: Forest, runq: seq<nat>)
    requires forall p :: multiset(runq)[p] == if p in f.procs then 1 else 0
    ensures Distinct(runq) && forall p :: p in runq <==> p in f.procs
  {
    hide Distinct;
    forall p
      ensures multiset(runq)[p] <= 1 && (p in runq <==> p in f.procs)
    {
      assert multiset(runq)[p] == if p in f.procs then 1 else 0;
    }
    DistinctOfCounts(runq);
  }

  lemma KidsLinked(f: Forest, s: Sys)
    requires s.children.Keys == f.procs && s.reaped == {}
    requires forall p, c :: p in f.procs ==>
               multiset(s.children[p])[c] == if c in f.parent && f.parent[c] == p then 1 else 0
    ensures Linked(f, s)
  {
    hide Distinct;
    forall p, c | p in f.procs
      ensures multiset(s.children[p])[c] <= 1 && (c in s.children[p] <==> f.IsChild(c, p))
    {
      assert multiset(s.children[p])[c] == if c in f.parent && f.parent[c] == p then 1 else 0;
    }
    forall p | p in f.procs
      ensures Distinct(s.children[p])
    {
      assert forall x :: multiset(s.children[p])[x] <= 1;
      DistinctOfCounts(s.children[p]);
    }
  }

  lemma {:induction false} DistinctOfCounts(q: seq<nat>)
    requires forall x :: multiset(q)[x] <= 1
    ensures Distinct(q)
  {
    if q != [] {
      var h, t := q[0], q[1..];
      assert q == [h] + t;
      assert multiset(q)[h] == 1 + multiset(t)[h];
      forall x
        ensures multiset(t)[x] <= 1
      {
        assert multiset(q)[x] <= 1;
      }
      DistinctOfCounts(t);
    }
  }

  ghost predicate IsRun(f: Forest, run: seq<Sys>, events: seq<Event>) {
    && |run| == |events| + 1 && Start(f, run[0])
    && forall i :: 0 <= i < |events| ==> IsStep(f, run[i], events[i], run[i + 1])
  }

  ghost predicate IsStep(f: Forest, s: Sys, e: Event, s': Sys) {
    Enabled(s, e) && (s.running.Some? ==> s.running.value in s.children) && s' == Next(f, s, e)
  }

  lemma StartInv(f: Forest, s: Sys)
    requires Start(f, s)
    ensures Inv(f, s)
  {
  }

  /** The invariant holds in every state of every run. */
  lemma {:induction false} Safe(f: Forest, run: seq<Sys>, events: seq<Event>, i: nat)
    requires IsRun(f, run, events) && i < |run|
    ensures Inv(f, run[i])
  {
    hide Inv;
    hide Start;
    hide Next;
    if i == 0 {
      StartInv(f, run[0]);
    } else {
      Safe(f, run, events, i - 1);
      assert IsStep(f, run[i - 1], events[i - 1], run[i]);
      StepKeeps(f, run[i - 1], events[i - 1]);
    }
  }

  /** In every state of every run, each process is on the CPU, on one of the three queues, once, or reaped, as its state
      says, and the child lists hold exactly the children that were not reaped. */
  lemma OnePlace(f: Forest, run: seq<Sys>, events: seq<Event>, i: nat, p: nat)
    requires IsRun(f, run, events) && i < |run| && p in f.procs
    ensures var s := run[i];
            && p in s.state && p in s.children
            && (s.state[p] == Runnable <==> p in s.runq || s.running == Some(p))
            && (s.state[p] == Blocked <==> p in s.waitq)
            && (s.state[p] == Exited <==> p in s.exitq || p in s.reaped)
            && !(p in s.runq && s.running == Some(p)) && !(p in s.exitq && p in s.reaped)
            && multiset(s.runq)[p] <= 1 && multiset(s.waitq)[p] <= 1 && multiset(s.exitq)[p] <= 1
            && (forall c :: c in s.children[p] <==> c in f.parent && f.parent[c] == p && c !in s.reaped)
            && (forall c :: multiset(s.children[p])[c] <= 1)
  {
    hide Start;
    hide IsStep;
    Safe(f, run, events, i);
    var s := run[i];
    CountOne(s.runq, p);
    CountOne(s.waitq, p);
    CountOne(s.exitq, p);
    forall c
      ensures c in s.children[p] <==> c in f.parent && f.parent[c] == p && c !in s.reaped
      ensures multiset(s.children[p])[c] <= 1
    {
      assert f.IsChild(c, p) <==> c in f.parent && f.parent[c] == p;
      CountOne(s.children[p], c);
    }
  }

  lemma {:induction false} CountOne(q: seq<nat>, p: nat)
    requires Distinct(q)
    ensures multiset(q)[p] <= 1
  {
    if q != [] {
      assert q == [q[0]] + q[1..];
      CountOne(q[1..], p);
      assert q[0] !in q[1..];
    }
  }

  /** While the CPU is free and some process has not exited, there is a process to run: follow the blocked processes
      down the forest, each to a child that has not exited either. */
  lemma {:induction false} SomeoneRuns(f: Forest, s: Sys, p: nat)
    requires Inv(f, s) && s.running == None && p in f.procs && s.state[p] != Exited
    ensures s.runq != []
    decreases f.rank[p]
  {
    if p !in s.runq {
      assert p in s.waitq;
      var c := s.children[p][0];
      assert c in s.children[p];
      assert f.IsChild(c, p) && c !in s.reaped && c !in s.exitq;
      SomeoneRuns(f, s, c);
    }
  }

  /** No deadlock: the scheduler never spins on an empty run queue while a process is alive. */
  lemma NoDeadlock(f: Forest, run: seq<Sys>, events: seq<Event>, i: nat, p: nat)
    requires IsRun(f, run, events) && i < |run| && run[i].running == None
    requires p in f.procs && p in run[i].state && run[i].state[p] != Exited
    ensures run[i].runq != [] && Enabled(run[i], Pick)
  {
    hide Start;
    hide IsStep;
    Safe(f, run, events, i);
    SomeoneRuns(f, run[i], p);
  }

  // A process inside wait4 sleeps only while it has no zombie child, so it sleeps at most once.

  ghost predicate HasZombie(f: Forest, s: Sys, p: nat) {
    exists z :: z in s.exitq && f.IsChild(z, p)
  }

  lemma ZombieMeans(f: Forest, s: Sys, p: nat)
    ensures HasZombie(f, s, p) <==> exists z :: z in s.exitq && z in f.parent && f.parent[z] == p
  {
    if HasZombie(f, s, p) {
      var z :| z in s.exitq && f.IsChild(z, p);
    } else if z :| z in s.exitq && z in f.parent && f.parent[z] == p {
      assert f.IsChild(z, p);
    }
  }

  /** No spurious wakeup: a process that was woken inside wait4 has a zombie child to reap. */
  ghost predicate WokenForCause(f: Forest, s: Sys) {
    forall p :: p in s.waiting && p !in s.waitq ==> HasZombie(f, s, p)
  }

  lemma CauseKept(f: Forest, s: Sys, s': Sys)
    requires WokenForCause(f, s)
    requires forall p :: p in s'.waiting && p !in s'.waitq ==> p in s.waiting && p !in s.waitq
    requires forall p, z :: p in s'.waiting && z in s.exitq && f.IsChild(z, p) ==> z in s'.exitq
    ensures WokenForCause(f, s')
  {
    forall p | p in s'.waiting && p !in s'.waitq
      ensures HasZombie(f, s', p)
    {
      var z :| z in s.exitq && f.IsChild(z, p);
      assert z in s'.exitq;
    }
  }

  lemma ExitHasCause(f: Forest, s: Sys, p: nat)
    requires Inv(f, s) && s.running == Some(p) && WokenForCause(f, s)
    ensures WokenForCause(f, Gone(Wake(f, s, p), p))
  {
    WakeClears(f, s, p);
    var w, g := Wake(f, s, p), Gone(Wake(f, s, p), p);
    forall q | q in g.waiting && q !in g.waitq
      ensures HasZombie(f, g, q)
    {
      assert p in g.exitq;
      if f.IsChild(p, q) {
      } else if w != s {
        WithoutElems(s.waitq, f.parent[p], q);
      }
      if !f.IsChild(p, q) {
        var z :| z in s.exitq && f.IsChild(z, q);
        assert z in g.exitq;
      }
    }
  }

  lemma ReapHasCause(f: Forest, s: Sys, p: nat, z: nat)
    requires Inv(f, s) && s.running == Some(p) && WokenForCause(f, s) && f.IsChild(z, p)
    ensures WokenForCause(f, Reaped(s, p, z))
  {
    hide Unlisted;
    var r := Reaped(s, p, z);
    forall q, y | q in r.waiting && y in s.exitq && f.IsChild(y, q)
      ensures y in r.exitq
    {
      WithoutElems(s.exitq, z, y);
    }
    CauseKept(f, s, r);
  }

  lemma StepHasCause(f: Forest, s: Sys, e: Event)
    requires Inv(f, s) && Enabled(s, e) && WokenForCause(f, s)
    ensures WokenForCause(f, Next(f, s, e))
  {
    var s' := Next(f, s, e);
    if e == Pick || e == Yield {
      CauseKept(f, s, s');
    } else if e == Exit {
      ExitHasCause(f, s, s.running.value);
    } else if s' != s {
      var p := s.running.value;
      ZombieFound(f, s.exitq, p);
      match FirstZombie(f, s.exitq, p)
      case Some(z) => ReapHasCause(f, s, p, z);
      case None => CauseKept(f, s, s');
    }
  }

  lemma {:induction false} AlwaysCause(f: Forest, run: seq<Sys>, events: seq<Event>, i: nat)
    requires IsRun(f, run, events) && i < |run|
    ensures WokenForCause(f, run[i])
  {
    hide Inv;
    hide Next;
    if i == 0 {
      assert run[0].waiting == {};
    } else {
      hide Start;
      hide WokenForCause;
      AlwaysCause(f, run, events, i - 1);
      Safe(f, run, events, i - 1);
      assert IsStep(f, run[i - 1], events[i - 1], run[i]);
      StepHasCause(f, run[i - 1], events[i - 1]);
    }
  }

  lemma SleeperHasNoZombie(f: Forest, s: Sys, p: nat)
    requires Inv(f, s) && WokenForCause(f, s) && p in s.waiting
    ensures p in s.waitq <==> !HasZombie(f, s, p)
    ensures s.running == Some(p) ==> p !in s.waitq
  {
  }

  /** In every state of every run, a process inside wait4 is on the wait queue if and only if it has no zombie child. */
  lemma SleepsIffNoZombie(f: Forest, run: seq<Sys>, events: seq<Event>, i: nat, p: nat)
    requires IsRun(f, run, events) && i < |run| && p in run[i].waiting
    ensures p in run[i].waitq <==> forall z :: z in run[i].exitq ==> !(z in f.parent && f.parent[z] == p)
    ensures p in run[i].waitq <==> !HasZombie(f, run[i], p)
    ensures run[i].running == Some(p) ==> HasZombie(f, run[i], p)
  {
    ZombieMeans(f, run[i], p);
    hide Start;
    hide IsStep;
    hide Inv;
    hide WokenForCause;
    hide HasZombie;
    Safe(f, run, events, i);
    AlwaysCause(f, run, events, i);
    SleeperHasNoZombie(f, run[i], p);
  }

  /** wait4 sleeps at most once: a process that goes on with its loop reaps a child and keeps the CPU. */
  lemma WaitSleepsOnce(f: Forest, run: seq<Sys>, events: seq<Event>, i: nat)
    requires IsRun(f, run, events) && i < |events| && events[i] == Rescan
    ensures var s, s' := run[i], run[i + 1];
            && s.running.Some? && s'.running == s.running && s.running.value !in s'.waiting
            && exists z :: s'.reaped == s.reaped + {z} && z in s.exitq && f.IsChild(z, s.running.value)
  {
    hide Start;
    hide Inv;
    var s := run[i];
    assert IsStep(f, s, events[i], run[i + 1]);
    SleepsIffNoZombie(f, run, events, i, s.running.value);
    ZombieFound(f, s.exitq, s.running.value);
  }

  // Bounded waiting.

  /** How many processes the run queue will hand out before p. */
  ghost function Ahead(s: Sys, p: nat): nat
    requires p in s.runq
  {
    |s.runq| - 1 - IndexOf(s.runq, p)
  }

  lemma {:induction false} IndexUnique(q: seq<nat>, x: nat, i: nat)
    requires Distinct(q) && i < |q| && q[i] == x
    ensures IndexOf(q, x) == i
  {
    if i > 0 {
      assert q[0] != q[i];
      IndexUnique(q[1..], x, i - 1);
    }
  }

  lemma RunqDistinct(f: Forest, s: Sys)
    requires Inv(f, s)
    ensures Distinct(s.runq)
  {
  }

  /** A step takes the last process from the run queue if it is a pick, and else adds at most one at the front. */
  lemma RunqNext(f: Forest, s: Sys, e: Event)
    requires Inv(f, s) && Enabled(s, e)
    ensures var q, q' := s.runq, Next(f, s, e).runq;
            if e == Pick then q' == q[..|q| - 1] else q' == q || (|q'| == |q| + 1 && q'[1..] == q)
  {
  }

  /** A step that does not pick p leaves p in the queue; only picks bring it nearer to the back, each by one. */
  lemma AheadStep(f: Forest, s: Sys, e: Event, p: nat)
    requires Inv(f, s) && Enabled(s, e) && p in s.runq
    requires e == Pick ==> Ahead(s, p) > 0
    ensures p in Next(f, s, e).runq
    ensures Ahead(Next(f, s, e), p) == Ahead(s, p) - if e == Pick then 1 else 0
  {
    hide Inv;
    hide Next;
    InvParts(f, s);
    var s', i := Next(f, s, e), IndexOf(s.runq, p);
    StepKeeps(f, s, e);
    RunqNext(f, s, e);
    RunqDistinct(f, s);
    RunqDistinct(f, s');
    hide IndexOf;
    hide Distinct;
    if e == Pick {
      assert s'.runq[i] == p;
      IndexUnique(s'.runq, p, i);
    } else if s'.runq != s.runq {
      assert s'.runq[i + 1] == s'.runq[1..][i];
      IndexUnique(s'.runq, p, i + 1);
    }
  }

  ghost function Picks(events: seq<Event>): nat {
    if events == [] then 0 else Picks(events[..|events| - 1]) + if events[|events| - 1] == Pick then 1 else 0
  }

  /** From a state in which k processes are ahead of p, a run with at most k picks leaves p in the queue with the
      remaining ones ahead of it ... */
  lemma {:induction false} AheadAfter(f: Forest, run: seq<Sys>, events: seq<Event>, start: nat, end: nat, p: nat)
    requires IsRun(f, run, events) && start <= end < |run| && p in run[start].runq
    requires Picks(events[start..end]) <= Ahead(run[start], p)
    ensures p in run[end].runq && Ahead(run[end], p) == Ahead(run[start], p) - Picks(events[start..end])
    decreases end - start
  {
    hide Next;
    hide Start;
    hide Inv;
    hide Ahead;
    hide Picks;
    if start < end {
      PicksNext(events, start, end);
      AheadAfter(f, run, events, start, end - 1, p);
      Safe(f, run, events, end - 1);
      assert IsStep(f, run[end - 1], events[end - 1], run[end]);
      AheadStep(f, run[end - 1], events[end - 1], p);
    } else {
      PicksNone(events, start);
    }
  }

  lemma PicksNext(events: seq<Event>, start: nat, end: nat)
    requires start < end <= |events|
    ensures Picks(events[start..end]) == Picks(events[start..end - 1]) + if events[end - 1] == Pick then 1 else 0
  {
    var es := events[start..end];
    assert es[..|es| - 1] == events[start..end - 1] && es[|es| - 1] == events[end - 1];
  }

  lemma PicksNone(events: seq<Event>, start: nat)
    requires start <= |events|
    ensures Picks(events[start..start]) == 0
  {
  }

  /** ... and so the (k+1)-th pick dispatches p, whatever yields, exits and wakeups happen in between. */
  lemma BoundedWaiting(f: Forest, run: seq<Sys>, events: seq<Event>, start: nat, end: nat, p: nat)
    requires IsRun(f, run, events) && start <= end < |events| && p in run[start].runq
    requires events[end] == Pick && Picks(events[start..end]) == Ahead(run[start], p)
    ensures run[end + 1].running == Some(p)
  {
    hide Start;
    AheadAfter(f, run, events, start, end, p);
    assert IsStep(f, run[end], events[end], run[end + 1]);
  }
}
