/** Page tables of rekernel/arch/arm64/vm.d: entries in the VMSAv8-64 descriptor format, built by allocating
    while walking.  Tables are named by physical address; the kernel reads them at a fixed offset from it. */
module Arm64Vm {
  import opened Base
  import opened PageTree
  import opened Tables

  const USER_END: nat := 0x1_0000_0000_0000
  const ADDR_LIMIT: nat := 0x10_0000_0000 // the descriptor's address field has 36 bits

  /** A descriptor, one component per bit field that the kernel reads or writes. */
  datatype Pte = Pte(valid: bool, table: bool, index: nat, ap: nat, sh: nat, af: bool, addr: nat,
                     pxn: bool, uxn: bool, cow: bool)
  {
    function Pa(): nat { addr * PAGESIZE }

    function SetPa(pa: nat): Pte { this.(addr := (pa / PAGESIZE) % ADDR_LIMIT) }

    predicate IsLeaf(level: nat) { level == 0 || !table }

    function SetPerm(perm: Perm): Pte {
      this.(valid := perm.read,
            cow := perm.cow,
            pxn := !perm.exec,
            uxn := !perm.exec || !perm.user,
            ap := (if perm.user then 1 else 0) + (if perm.write then 0 else 2))
    }

    function GetPerm(): Perm {
      Perm(valid, ap / 2 % 2 == 0, !uxn || !pxn, !uxn || ap % 2 == 1, cow)
    }
  }

  const ZERO := Pte(false, false, 0, 0, 0, false, 0, false, false, false)

  type Table = seq<Pte>

  function ZeroTable(): (t: Table)
    ensures |t| == FANOUT
  {
    seq(FANOUT, _ => ZERO)
  }

  /** The table index of va at a level: nine bits of va starting at bit 12 + 9 * level. */
  function Vpn(level: nat, va: nat): nat
    requires level <= LEVEL_MAX
  {
    match level
    case 0 => va / 0x1000 % FANOUT
    case 1 => va / 0x20_0000 % FANOUT
    case 2 => va / 0x4000_0000 % FANOUT
    case _ => va / 0x80_0000_0000 % FANOUT
  }

  lemma VpnIsSlot(level: nat, va: nat)
    requires level <= LEVEL_MAX
    ensures Vpn(level, va) == Slot(Page(va), level)
  {
    SlotOfAddress(va, level);
  }

  /** What an entry of a table at the given level means. */
  function Decode(p: Pte, level: nat): Entry {
    if !p.valid then Hole
    else if p.IsLeaf(level) then Leaf(p.Pa(), p.GetPerm())
    else Link(p.Pa())
  }

  ghost function Abs(root: nat, mem: map<nat, Table>, place: map<nat, Place>): (t: Tree)
    requires mem.Keys == place.Keys
    ensures t.root == root && t.nodes.Keys == mem.Keys && t.place == place
  {
    TreeOf(Decode, root, mem, place)
  }

  /** The entry that links to a table, over whatever the slot held. */
  function LinkPte(p: Pte, c: nat): Pte {
    p.SetPa(c).(valid := true, table := true)
  }

  /** Memory after a new zeroed table was linked in. */
  function LinkedIn(mem: map<nat, Table>, n: nat, slot: nat, c: nat): (mem': map<nat, Table>)
    requires n in mem && slot < |mem[n]|
    ensures mem'.Keys == mem.Keys + {c}
  {
    mem[n := mem[n][slot := LinkPte(mem[n][slot], c)]][c := ZeroTable()]
  }

  lemma AbsGrown(root: nat, mem: map<nat, Table>, place: map<nat, Place>, n: nat, slot: nat, c: nat)
    requires mem.Keys == place.Keys && n in mem && slot < |mem[n]| && place[n].level > 0 && c !in mem
    requires c % PAGESIZE == 0 && c / PAGESIZE < ADDR_LIMIT
    ensures var g := Grown(Abs(root, mem, place), n, slot, c);
            Abs(root, LinkedIn(mem, n, slot, c), g.place) == g
  {
    var p := LinkPte(mem[n][slot], c);
    assert p.Pa() == c;
    forall level: nat
      ensures Decoded(Decode, ZeroTable(), level) == EmptyNode()
    {
      ZeroDecodes(level);
    }
    hide ZeroTable;
    TreeGrown(Decode, root, mem, place, n, slot, c, p, ZeroTable());
  }

  lemma ZeroDecodes(level: nat)
    ensures Decoded(Decode, ZeroTable(), level) == EmptyNode()
  {
  }

  /** The entry that maps a page. */
  function LeafPte(p: Pte, pa: nat, perm: Perm, level: nat): Pte {
    p.SetPa(pa).(valid := true).SetPerm(perm).(table := level == 0, sh := 3, af := true, index := 0)
  }

  lemma LeafDecodes(p: Pte, pa: nat, perm: Perm)
    ensures Decode(LeafPte(p, pa, perm, 0), 0)
            == if perm.read then Leaf(pa / PAGESIZE % ADDR_LIMIT * PAGESIZE, perm) else Hole
  {
  }

  /** The nodes below n in t. */
  ghost function Below(t: Tree, n: nat): set<nat> {
    set m | m in t.nodes && Under(t, m, n)
  }

  /** The nodes below n that are reached through slots before i. */
  ghost function BelowTo(t: Tree, n: nat, i: nat): set<nat> {
    set m | m in t.nodes && Under(t, m, n) && SlotToward(t, n, m) < i
  }

  lemma BelowToNext(t: Tree, n: nat, i: nat)
    requires WellFormed(t) && n in t.nodes && i < FANOUT
    ensures |t.nodes[n]| == FANOUT
    ensures !t.nodes[n][i].Link? ==> BelowTo(t, n, i + 1) == BelowTo(t, n, i)
    ensures t.nodes[n][i].Link? ==>
              && BelowTo(t, n, i + 1)
                 == BelowTo(t, n, i) + ({t.nodes[n][i].child} + Below(t, t.nodes[n][i].child))
              && t.nodes[n][i].child in t.nodes && t.place[n].level > 0
              && t.place[t.nodes[n][i].child].level == t.place[n].level - 1
              && t.nodes[n][i].child !in BelowTo(t, n, i)
              && t.nodes[n][i].child in Below(t, n) && t.nodes[n][i].child !in Below(t, t.nodes[n][i].child)
              && Below(t, t.nodes[n][i].child) !! BelowTo(t, n, i)
              && Below(t, t.nodes[n][i].child) <= Below(t, n)
  {
    hide WellFormed;
    hide Under;
    hide SlotToward;
    NodeSize(t, n);
    ChildPlace(t, n, i);
    if t.nodes[n][i].Link? {
      NotUnderSelf(t, t.nodes[n][i].child);
    }
    forall m | m in t.nodes
      ensures (Under(t, m, n) && SlotToward(t, n, m) == i)
              <==> (t.nodes[n][i].Link? && (m == t.nodes[n][i].child || Under(t, m, t.nodes[n][i].child)))
    {
      UnderSlot(t, n, m, i);
    }
  }

  lemma UnderSlot(t: Tree, n: nat, m: nat, i: nat)
    requires WellFormed(t) && n in t.nodes && m in t.nodes && i < FANOUT
    ensures |t.nodes[n]| == FANOUT
    ensures (Under(t, m, n) && SlotToward(t, n, m) == i)
            <==> (t.nodes[n][i].Link? && (m == t.nodes[n][i].child || Under(t, m, t.nodes[n][i].child)))
  {
    hide WellFormed;
    NodeSize(t, n);
    NodeSize(t, m);
    if Under(t, m, n) && SlotToward(t, n, m) == i {
      UnderVia(t, n, m);
    }
    if t.nodes[n][i].Link? && (m == t.nodes[n][i].child || Under(t, m, t.nodes[n][i].child)) {
      ChildUnder(t, n, i, m);
    }
  }

  /** The subtree at n still stands in memory as t has it. */
  ghost predicate Stands(t: Tree, mem: map<nat, Table>, n: nat) {
    forall m :: m in {n} + Below(t, n) ==>
      m in mem && m in t.nodes && m in t.place && Decoded(Decode, mem[m], t.place[m].level) == t.nodes[m]
  }

  lemma StandsEntry(t: Tree, mem: map<nat, Table>, n: nat, i: nat)
    requires WellFormed(t) && n in t.nodes && Stands(t, mem, n) && i < FANOUT
    ensures n in mem && n in t.place && |mem[n]| == |t.nodes[n]| == FANOUT
    ensures Decode(mem[n][i], t.place[n].level) == t.nodes[n][i]
  {
    hide WellFormed;
    hide Decode;
    hide Below;
    NodeSize(t, n);
    assert n in {n} + Below(t, n);
  }

  /** While the slots before i are being freed, the subtree at slot i stands. */
  lemma StandsChild(t: Tree, mem0: map<nat, Table>, mem: map<nat, Table>, n: nat, i: nat)
    requires WellFormed(t) && n in t.nodes && i < FANOUT && |t.nodes[n]| == FANOUT && t.nodes[n][i].Link?
    requires Stands(t, mem0, n) && n in mem && mem == (mem0 - BelowTo(t, n, i))[n := mem[n]]
    ensures Stands(t, mem, t.nodes[n][i].child)
  {
    hide WellFormed;
    hide Decode;
    hide Decoded;
    var c := t.nodes[n][i].child;
    BelowToNext(t, n, i);
    NotUnderSelf(t, n);
    hide Below;
    hide BelowTo;
    forall m | m in {c} + Below(t, c)
      ensures m in mem && m in t.nodes && m in t.place && Decoded(Decode, mem[m], t.place[m].level) == t.nodes[m]
    {
      assert m in Below(t, n) && m !in BelowTo(t, n, i) && m != n;
      assert mem[m] == mem0[m];
    }
  }

  /** The slots of n before i are cleared, and the tables below them freed. */
  ghost predicate Freeing(t: Tree, mem0: map<nat, Table>, freed0: seq<nat>, mem: map<nat, Table>, freed: seq<nat>,
                          n: nat, i: nat)
  {
    && Stands(t, mem0, n) && n in mem0 && n in mem && |mem0[n]| == |mem[n]| == FANOUT && n !in BelowTo(t, n, i)
    && mem == (mem0 - BelowTo(t, n, i))[n := mem[n]]
    && (forall k :: 0 <= k < i && k < FANOUT ==> mem[n][k] == ZERO)
    && (forall k :: i <= k < FANOUT ==> mem[n][k] == mem0[n][k])
    && |freed0| <= |freed| && freed == freed0 + freed[|freed0|..]
    && Lists(freed[|freed0|..], BelowTo(t, n, i))
  }

  lemma FreeingNone(t: Tree, mem: map<nat, Table>, freed: seq<nat>, n: nat)
    requires WellFormed(t) && n in t.nodes && Stands(t, mem, n)
    ensures Freeing(t, mem, freed, mem, freed, n, 0)
  {
    hide WellFormed;
    hide Stands;
    hide Decode;
    StandsEntry(t, mem, n, 0);
    ListsNone(t, n);
    assert BelowTo(t, n, 0) == {};
    hide Lists;
    assert freed[|freed|..] == [];
  }

  /** The next entry is still the one that was there, and the subtree it links to stands. */
  lemma FreeingEntry(t: Tree, mem0: map<nat, Table>, freed0: seq<nat>, mem: map<nat, Table>, freed: seq<nat>,
                     n: nat, i: nat)
    requires WellFormed(t) && n in t.nodes && i < FANOUT && Freeing(t, mem0, freed0, mem, freed, n, i)
    ensures n in mem && |mem[n]| == |t.nodes[n]| == FANOUT && n in t.place
    ensures Decode(mem[n][i], t.place[n].level) == t.nodes[n][i]
    ensures t.nodes[n][i].Link? ==> Stands(t, mem, t.nodes[n][i].child)
  {
    hide WellFormed;
    hide Stands;
    hide BelowTo;
    hide Lists;
    hide Decode;
    StandsEntry(t, mem0, n, i);
    if t.nodes[n][i].Link? {
      StandsChild(t, mem0, mem, n, i);
    }
  }

  lemma FreeingSkip(t: Tree, mem0: map<nat, Table>, freed0: seq<nat>, mem: map<nat, Table>, freed: seq<nat>,
                    n: nat, i: nat)
    requires WellFormed(t) && n in t.nodes && i < FANOUT && Freeing(t, mem0, freed0, mem, freed, n, i)
    requires |t.nodes[n]| == FANOUT && !t.nodes[n][i].Link? && n in mem && |mem[n]| == FANOUT
    ensures Freeing(t, mem0, freed0, Put(mem, Loc(n, i), ZERO), freed, n, i + 1)
  {
    hide WellFormed;
    hide Stands;
    hide Lists;
    BelowToNext(t, n, i);
    hide BelowTo;
  }

  lemma FreeingChild(t: Tree, mem0: map<nat, Table>, freed0: seq<nat>, mem: map<nat, Table>, freed: seq<nat>,
                     mem1: map<nat, Table>, freed1: seq<nat>, n: nat, i: nat)
    requires WellFormed(t) && n in t.nodes && i < FANOUT && Freeing(t, mem0, freed0, mem, freed, n, i)
    requires |t.nodes[n]| == FANOUT && t.nodes[n][i].Link?
    requires var c := t.nodes[n][i].child;
             && mem1 == mem - ({c} + Below(t, c))
             && |freed| <= |freed1| && freed1 == freed + freed1[|freed|..]
             && Lists(freed1[|freed|..], {c} + Below(t, c))
    ensures n in mem1 && |mem1[n]| == FANOUT
    ensures Freeing(t, mem0, freed0, Put(mem1, Loc(n, i), ZERO), freed1, n, i + 1)
  {
    hide WellFormed;
    hide Stands;
    hide Lists;
    var c := t.nodes[n][i].child;
    var gone, more := freed[|freed0|..], freed1[|freed|..];
    BelowToNext(t, n, i);
    NotUnderSelf(t, n);
    hide BelowTo;
    hide Below;
    ListsTwo(gone, BelowTo(t, n, i), more, {c} + Below(t, c));
    assert freed1[|freed0|..] == gone + more;
    assert n !in {c} + Below(t, c);
    var mem2 := Put(mem1, Loc(n, i), ZERO);
    assert mem2 == (mem0 - BelowTo(t, n, i + 1))[n := mem2[n]];
  }

  lemma FreeingDone(t: Tree, mem0: map<nat, Table>, freed0: seq<nat>, mem: map<nat, Table>, freed: seq<nat>, n: nat)
    requires Freeing(t, mem0, freed0, mem, freed, n, FANOUT)
    ensures n in mem && mem == (mem0 - Below(t, n))[n := ZeroTable()]
    ensures |freed0| <= |freed| && freed == freed0 + freed[|freed0|..] && Lists(freed[|freed0|..], Below(t, n))
  {
    hide Stands;
    hide Lists;
    BelowToAll(t, n);
    hide BelowTo;
    assert mem[n] == ZeroTable();
  }

  lemma Standing(root: nat, mem: map<nat, Table>, place: map<nat, Place>)
    requires mem.Keys == place.Keys && WellFormed(Abs(root, mem, place))
    ensures var t := Abs(root, mem, place);
            && root in mem && t.root == root && root in t.nodes && root in t.place
            && t.place[root].level == LEVEL_MAX
            && Stands(t, mem, root) && Below(t, root) == mem.Keys - {root}
  {
    hide WellFormed;
    hide Under;
    var t := Abs(root, mem, place);
    RootLevel(t);
    BelowRoot(t);
  }

  /** s lists the elements of a set, each once. */
  ghost predicate Lists(s: seq<nat>, elems: set<nat>) {
    Distinct(s) && (forall x :: x in s <==> x in elems)
  }

  lemma {:induction false} ListsBag(s: seq<nat>, all: set<nat>)
    requires Lists(s, all)
    ensures multiset(s) == multiset(all)
  {
    if s != [] {
      var k := |s| - 1;
      var x, front := s[k], s[..k];
      assert s == front + [x];
      assert x in all;
      assert x !in front;
      assert Lists(front, all - {x});
      ListsBag(front, all - {x});
      assert multiset(s) == multiset(front) + multiset{x};
      assert all == (all - {x}) + {x};
    } else {
      assert all == {};
    }
  }

  lemma NotUnderSelf(t: Tree, n: nat)
    ensures n !in Below(t, n)
  {
  }

  lemma ListsNone(t: Tree, n: nat)
    ensures Lists([], BelowTo(t, n, 0))
  {
  }

  lemma BelowToAll(t: Tree, n: nat)
    ensures BelowTo(t, n, FANOUT) == Below(t, n)
  {
  }

  lemma ListsTwo(s: seq<nat>, a: set<nat>, s': seq<nat>, b: set<nat>)
    requires Lists(s, a) && Lists(s', b) && a !! b
    ensures Lists(s + s', a + b)
  {
    var r := s + s';
    forall i, j | 0 <= i < j < |r|
      ensures r[i] != r[j]
    {
      if i < |s| <= j {
        assert s[i] in a && s'[j - |s|] in b;
      }
    }
  }

  lemma {:induction false} ListsCount(s: seq<nat>, elems: set<nat>)
    requires Lists(s, elems)
    ensures |s| == |elems|
  {
    if s != [] {
      var k := |s| - 1;
      assert forall x :: x in s[..k] <==> x in elems - {s[k]};
      ListsCount(s[..k], elems - {s[k]});
    }
  }

  lemma ListsOthers(s: seq<nat>, elems: set<nat>, x: nat)
    requires x in elems && Lists(s, elems - {x})
    ensures |s| == |elems| - 1 && multiset(s) == multiset(elems - {x})
  {
    ListsCount(s, elems - {x});
    ListsBag(s, elems - {x});
  }

  lemma BelowRoot(t: Tree)
    requires WellFormed(t)
    ensures Below(t, t.root) == t.nodes.Keys - {t.root}
  {
    hide WellFormed;
    forall m | m in t.nodes && m != t.root
      ensures Under(t, m, t.root)
    {
      NodeSize(t, m);
      AllUnderRoot(t, m);
    }
  }

  lemma EmptyNodes(root: nat, mem: map<nat, Table>, place: map<nat, Place>)
    requires mem == map[root := ZeroTable()] && place == map[root := Place(LEVEL_MAX, 0, 0)]
    ensures Abs(root, mem, place).nodes == map[root := EmptyNode()]
  {
    ZeroDecodes(LEVEL_MAX);
  }

  lemma EmptyTree(root: nat, mem: map<nat, Table>, place: map<nat, Place>)
    requires mem == map[root := ZeroTable()] && place == map[root := Place(LEVEL_MAX, 0, 0)]
    ensures WellFormed(Abs(root, mem, place))
    ensures Only4K(Abs(root, mem, place), PAGES)
    ensures forall pg :: 0 <= pg < PAGES ==> Translate(Abs(root, mem, place), pg) == None
  {
    EmptyNodes(root, mem, place);
    hide Abs;
    assert WellFormed(Abs(root, mem, place));
  }

  lemma ListsSnoc(s: seq<nat>, a: set<nat>, c: nat)
    requires Lists(s, a) && c !in a
    ensures Lists(s + [c], {c} + a)
  {
    assert {c} + a == a + {c};
    assert Lists([c], {c});
    ListsTwo(s, a, [c], {c});
  }

  /** What linking a fresh table into the hole where the descent to pg ends does. */
  lemma Linking(root: nat, mem: map<nat, Table>, place: map<nat, Place>, n: nat, slot: nat, c: nat, pg: nat)
    requires mem.Keys == place.Keys && WellFormed(Abs(root, mem, place)) && n in mem && slot < FANOUT && c !in mem
    requires place[n].level > 0 && c % PAGESIZE == 0 && c / PAGESIZE < ADDR_LIMIT && pg < PAGES
    requires var h := Find(Abs(root, mem, place), pg); h.node == n && h.slot == slot && h.entry.Hole?
    ensures |mem[n]| == FANOUT && |Abs(root, mem, place).nodes[n]| == FANOUT
    ensures var t := Abs(root, mem, place);
            var g := Grown(t, n, slot, c);
            var mem' := LinkedIn(mem, n, slot, c);
            && mem'.Keys == g.place.Keys == mem.Keys + {c} && |mem'.Keys| == |mem.Keys| + 1
            && Abs(root, mem', g.place) == g && Grew(t, g, c, pg) && WellFormed(g)
            && g.place[c].level == place[n].level - 1
  {
    hide WellFormed;
    hide Find;
    hide Grew;
    hide LinkedIn;
    EntryAt(Decode, root, mem, place, n, slot);
    AbsGrown(root, mem, place, n, slot, c);
    hide Abs;
    GrownGrew(Abs(root, mem, place), n, slot, c, pg);
  }

  /** A page table: its root, and every table frame reachable or about to be allocated for it. */
  class Pagetable {
    const root: nat
    var mem: map<nat, Table>
    var heap: seq<nat>  // the frames ptalloc will return, in order; then it returns null
    var freed: seq<nat> // the tables passed to kfree, in order
    ghost var place: map<nat, Place>
    ghost var allocs: nat // ptalloc calls that returned a table, since the table was last empty

    ghost predicate Valid()
      reads this
    {
      && mem.Keys == place.Keys
      && WellFormed(Abs(root, mem, place))
      && FreshFrames(heap, mem, ADDR_LIMIT)
      && |mem.Keys| == allocs + 1
    }

    /** knew!(Pagetable)() */
    constructor (root: nat, heap: seq<nat>)
      requires FreshFrames(heap, map[root := ZeroTable()], ADDR_LIMIT)
      ensures Valid() && allocs == 0 && this.root == root && this.heap == heap && mem == map[root := ZeroTable()]
      ensures Only4K(T(), PAGES)
      ensures forall pg :: 0 <= pg < PAGES ==> Translate(T(), pg) == None
    {
      hide WellFormed;
      hide Only4K;
      hide Translate;
      hide Abs;
      this.root, this.heap := root, heap;
      mem, freed := map[root := ZeroTable()], [];
      place, allocs := map[root := Place(LEVEL_MAX, 0, 0)], 0;
      new;
      EmptyTree(root, mem, place);
    }

    ghost function T(): (t: Tree)
      requires Valid()
      reads this
      ensures WellFormed(t) && t.root == root && t.nodes.Keys == mem.Keys && t.place == place
    {
      Abs(root, mem, place)
    }

    /** What the tree has where a table has an entry. */
    lemma Entry(n: nat, slot: nat)
      requires Valid() && n in mem && slot < FANOUT
      ensures |mem[n]| == |T().nodes[n]| == FANOUT && T().nodes[n][slot] == Decode(mem[n][slot], place[n].level)
    {
      hide WellFormed;
      EntryAt(Decode, root, mem, place, n, slot);
    }

    /** pte.pa = ...; pte.valid = 1; pte.table = 1 for a newly allocated table. */
    method LinkFresh(n: nat, slot: nat, ghost pg: nat) returns (c: nat)
      requires Valid() && heap != [] && n in mem && slot < FANOUT && place[n].level > 0
      requires pg < PAGES && Find(T(), pg).node == n && Find(T(), pg).slot == slot && Find(T(), pg).entry.Hole?
      modifies this
      ensures Valid() && heap == old(heap)[1..] && c == old(heap)[0] && allocs == old(allocs) + 1
      ensures Grew(old(T()), T(), c, pg) && place[c].level == old(place[n].level) - 1
    {
      hide WellFormed;
      hide Find;
      hide Grew;
      hide Abs;
      hide FreshFrames;
      hide LinkedIn;
      hide Grown;
      ghost var t := T();
      FreshFirst(heap, mem, ADDR_LIMIT);
      c := heap[0];
      heap := heap[1..];
      Linking(root, mem, place, n, slot, c, pg);
      mem := LinkedIn(mem, n, slot, c);
      place := Grown(t, n, slot, c).place;
      allocs := allocs + 1;
      FreshRest(old(heap), old(mem), mem, ADDR_LIMIT);
    }

    /** Finds the entry of va at the given level, or the larger leaf above it; None where a table is missing. */
    method Walk(va: nat, endlevel: nat) returns (r: Option<Loc>, end: nat)
      requires Valid() && endlevel <= LEVEL_MAX
      ensures var h := FindTo(T(), Page(va), endlevel);
              && end == h.level
              && (r.Some? <==> h.level == endlevel || !h.entry.Hole?)
              && (r.Some? ==> r.value == Loc(h.node, h.slot))
    {
      hide WellFormed;
      hide Abs;
      ghost var pg := Page(va);
      RootOnPath(T(), pg);
      RootLevel(T());
      var pt := root;
      var level := LEVEL_MAX;
      while level > endlevel
        invariant endlevel <= level <= LEVEL_MAX
        invariant OnPath(T(), pt, pg) && place[pt].level == level
        invariant FindTo(T(), pg, endlevel) == DescendTo(T(), pt, pg, endlevel)
      {
        var slot := Vpn(level, va);
        VpnIsSlot(level, va);
        Entry(pt, slot);
        LinkOnPath(T(), pt, pg);
        var pte := mem[pt][slot];
        if pte.valid && pte.IsLeaf(level) {
          return Some(Loc(pt, slot)), level;
        } else if pte.valid {
          pt := pte.Pa();
        } else {
          return None, level;
        }
        level := level - 1;
      }
      VpnIsSlot(endlevel, va);
      r, end := Some(Loc(pt, Vpn(endlevel, va))), endlevel;
    }

    /** The same walk when a table allocator is given: missing tables are allocated and linked on the way. */
    method WalkAlloc(va: nat, endlevel: nat) returns (r: Option<Loc>, end: nat)
      requires Valid() && endlevel <= LEVEL_MAX
      modifies this
      ensures Valid() && SameTranslation(old(T()), T())
      ensures forall limit :: 0 <= limit <= PAGES && old(Only4K(T(), limit)) ==> Only4K(T(), limit)
      ensures var h := FindTo(T(), Page(va), endlevel);
              && end == h.level
              && (r.Some? <==> h.level == endlevel || !h.entry.Hole?)
              && (r.Some? ==> r.value == Loc(h.node, h.slot))
      ensures Fed(old(T()), T(), old(heap), heap) && Seats(T()) == Seats(old(T())) + Way(Page(va), end)
      ensures r.None? ==> heap == [] && Seats(T()) != Seats(old(T())) + Way(Page(va), endlevel)
    {
      hide WellFormed;
      hide Only4K;
      hide SameTranslation;
      hide Abs;
      hide Seats;
      hide Way;
      hide Fed;
      hide Find;
      hide FindTo;
      hide Grew;
      hide Walking;
      ghost var t0, pg := T(), Page(va);
      WalkStart(t0, heap, pg, endlevel);
      var pt := root;
      var level := LEVEL_MAX;
      while level > endlevel
        invariant Valid() && endlevel <= level <= LEVEL_MAX
        invariant Walking(t0, old(heap), T(), heap, pt, pg, level, endlevel)
      {
        ghost var t, h := T(), heap;
        Walked(t0, old(heap), t, h, pt, pg, level, endlevel);
        var slot := Vpn(level, va);
        VpnIsSlot(level, va);
        Entry(pt, slot);
        var pte := mem[pt][slot];
        if pte.valid && pte.IsLeaf(level) {
          WalkStop(t0, old(heap), t, h, pt, pg, level, endlevel);
          return Some(Loc(pt, slot)), level;
        } else if pte.valid {
          WalkLink(t0, old(heap), t, h, pt, pg, level, endlevel);
          pt := pte.Pa();
        } else {
          WalkStop(t0, old(heap), t, h, pt, pg, level, endlevel);
          if heap == [] {
            WalkFails(t0, old(heap), t, h, pt, pg, level, endlevel);
            return None, level;
          }
          ghost var n := pt;
          pt := LinkFresh(pt, slot, pg);
          WalkGrew(t0, old(heap), t, h, n, pg, level, endlevel, T(), pt);
        }
        level := level - 1;
      }
      Walked(t0, old(heap), T(), heap, pt, pg, level, endlevel);
      WalkStop(t0, old(heap), T(), heap, pt, pg, level, endlevel);
      VpnIsSlot(endlevel, va);
      r, end := Some(Loc(pt, Vpn(endlevel, va))), endlevel;
    }

    /** Stores an entry at the 4 KB level. */
    method Store(l: Loc, pte: Pte, ghost pg: nat)
      requires Valid() && pg < PAGES
      requires l == Loc(Find(T(), pg).node, Find(T(), pg).slot) && Find(T(), pg).level == 0
      modifies this`mem
      ensures Valid() && Find(T(), pg).level == 0 && Seats(T()) == Seats(old(T()))
      ensures var e := Decode(pte, 0);
              Translate(T(), pg) == if e.Leaf? then Some(Mapping(e.pa, e.perm)) else None
      ensures forall q :: 0 <= q < PAGES && q != pg ==> Translate(T(), q) == old(Translate(T(), q))
      ensures forall limit :: 0 <= limit <= PAGES && old(Only4K(T(), limit)) ==> Only4K(T(), limit)
    {
      hide WellFormed;
      hide Only4K;
      hide Translate;
      hide Find;
      hide TreeOf;
      hide Seats;
      TreeStored(Decode, root, mem, place, l, pte, pg);
      mem := Put(mem, l, pte);
    }

    /** pte.valid = 0 on the 4 KB entry of a page */
    method Invalidate(l: Loc, ghost pg: nat)
      requires Valid() && pg < PAGES
      requires l == Loc(Find(T(), pg).node, Find(T(), pg).slot) && Find(T(), pg).level == 0
      modifies this`mem
      ensures Valid() && Translate(T(), pg) == None && Seats(T()) == Seats(old(T()))
      ensures forall q :: 0 <= q < PAGES && q != pg ==> Translate(T(), q) == old(Translate(T(), q))
      ensures forall limit :: 0 <= limit <= PAGES && old(Only4K(T(), limit)) ==> Only4K(T(), limit)
    {
      hide WellFormed;
      hide Only4K;
      hide Translate;
      hide Find;
      hide Abs;
      hide Seats;
      Entry(l.node, l.slot);
      Store(l, mem[l.node][l.slot].(valid := false), pg);
    }

    /** Maps the page of va to the frame of pa; false when a table could not be allocated. */
    method Map(va: nat, pa: nat, perm: Perm) returns (ok: bool)
      requires Valid() && Only4K(T(), Page(va) + 1)
      modifies this
      ensures Valid()
      ensures ok ==> Overrides(old(T()), T(), Region(Page(va), 1, pa / PAGESIZE, ADDR_LIMIT, perm))
      ensures !ok ==> SameTranslation(old(T()), T()) && heap == []
      ensures forall limit :: 0 <= limit <= PAGES && old(Only4K(T(), limit)) ==> Only4K(T(), limit)
      ensures Fed(old(T()), T(), old(heap), heap) && Seats(T()) <= Seats(old(T())) + Way(Page(va), 0)
      ensures ok <==> Seats(T()) == Seats(old(T())) + Way(Page(va), 0)
      ensures Reached(old(T()), T(), Page(va))
    {
      hide Reached;
      hide WellFormed;
      hide SameTranslation;
      hide Only4K;
      hide Find;
      hide FindTo;
      hide Translate;
      hide Overrides;
      hide Abs;
      hide Seats;
      hide Way;
      hide Fed;
      hide Decode;
      hide LeafPte;
      var r, level := WalkAlloc(va, 0);
      WayMore(Page(va), level, 0);
      ReachedAt(old(T()), T(), Page(va), level);
      if r == None {
        return false;
      }
      FindToStops(T(), Page(va), 0);
      LevelOfLeaf(T(), Page(va) + 1, Page(va));
      Entry(r.value.node, r.value.slot);
      ghost var t := T();
      var pte := mem[r.value.node][r.value.slot];
      LeafDecodes(pte, pa, perm);
      Store(r.value, LeafPte(pte, pa, perm, level), Page(va));
      FedSame(old(T()), t, T(), old(heap), heap);
      ReachedAt(old(T()), T(), Page(va), level);
      OverridesOne(old(T()), t, T(), Page(va), pa / PAGESIZE, ADDR_LIMIT, perm);
      ok := true;
    }

    /** Maps size / 4096 pages one by one; fails when, and only when, the tables that are missing are more than the
        frames that are left. */
    method MapRegion(va: nat, pa: nat, size: nat, perm: Perm) returns (ok: bool, ghost done: nat)
      requires Valid() && size % PAGESIZE == 0
      requires va + size <= USER_END && Only4K(T(), PAGES)
      modifies this
      ensures Valid() && Only4K(T(), PAGES)
      ensures Overrides(old(T()), T(), Region(va / PAGESIZE, done, pa / PAGESIZE, ADDR_LIMIT, perm))
      ensures if ok then done == size / PAGESIZE else done < size / PAGESIZE && heap == []
      ensures ok <==> |old(heap)| >= Lacking(old(T()), va / PAGESIZE, size / PAGESIZE)
      ensures Fed(old(T()), T(), old(heap), heap)
      ensures ok ==> Seats(T()) == Seats(old(T())) + Wanted(va / PAGESIZE, size / PAGESIZE)
      ensures !ok ==> PartWay(old(T()), T(), va / PAGESIZE, done)
                      && Lacking(old(T()), va / PAGESIZE, done) <= |old(heap)| < Lacking(old(T()), va / PAGESIZE, done + 1)
    {
      hide WellFormed;
      hide SameTranslation;
      hide Only4K;
      hide Overrides;
      hide Abs;
      hide Seats;
      hide Wanted;
      hide Fed;
      hide Lacking;
      hide Way;
      hide Page;
      hide MappedTo;
      hide Reached;
      hide PartWay;
      ghost var t0, r := T(), Region(va / PAGESIZE, 0, pa / PAGESIZE, ADDR_LIMIT, perm);
      var i := 0;
      done := 0;
      MappedNone(t0, heap, r);
      while i < size
        invariant i == done * PAGESIZE && i <= size
        invariant Valid() && Only4K(T(), PAGES)
        invariant MappedTo(t0, old(heap), T(), heap, r, done)
      {
        ghost var t, h := T(), heap;
        PageAfter(va, i, done);
        PageAfter(pa, i, done);
        FewerOnly4K(t, PAGES, Page(va + i) + 1);
        ok := Map(va + i, pa + i, perm);
        if !ok {
          MappedNoMore(t0, old(heap), t, h, T(), heap, r, done, size / PAGESIZE);
          return;
        }
        MappedNext(t0, old(heap), t, h, T(), heap, r, done);
        done := done + 1;
        i := i + PAGESIZE;
      }
      MappedAll(t0, old(heap), T(), heap, r, done);
      ok := true;
    }

    method VmLookup(va: nat) returns (m: VmMap)
      requires Valid()
      ensures m == Lookup(T(), va)
    {
      hide WellFormed;
      hide Find;
      hide FindTo;
      hide Abs;
      var r, level := Walk(va, 0);
      FindToStops(T(), Page(va), 0);
      if r.Some? {
        Entry(r.value.node, r.value.slot);
        var pte := mem[r.value.node][r.value.slot];
        if pte.valid {
          var size := LevelSize(level);
          return VmMap(true, pte.Pa() + va % size, pte.GetPerm(), size - va % size);
        }
      }
      m := VmMap(false, 0, NONE, 0);
    }

    /** child.free(level - 1); kfree(child) */
    method FreeChild(child: nat, level: nat, ghost t: Tree)
      requires WellFormed(t) && child in t.nodes && t.place[child].level == level && Stands(t, mem, child)
      modifies this`mem, this`freed
      ensures mem == old(mem) - ({child} + Below(t, child))
      ensures |old(freed)| <= |freed| && freed == old(freed) + freed[|old(freed)|..]
      ensures Lists(freed[|old(freed)|..], {child} + Below(t, child))
      decreases level, 1
    {
      hide WellFormed;
      Free(child, level, t);
      NotUnderSelf(t, child);
      ListsSnoc(freed[|old(freed)|..], Below(t, child), child);
      mem := mem - {child};
      assert (freed + [child])[|old(freed)|..] == freed[|old(freed)|..] + [child];
      freed := freed + [child];
    }

    /** Clears the table at n and frees every table below it. */
    method Free(n: nat, level: nat, ghost t: Tree)
      requires WellFormed(t) && n in t.nodes && t.place[n].level == level && Stands(t, mem, n)
      modifies this`mem, this`freed
      ensures n in mem && mem == (old(mem) - Below(t, n))[n := ZeroTable()]
      ensures |old(freed)| <= |freed| && freed == old(freed) + freed[|old(freed)|..]
      ensures Lists(freed[|old(freed)|..], Below(t, n))
      decreases level, 0
    {
      hide WellFormed;
      hide Lists;
      hide BelowTo;
      hide Below;
      hide Stands;
      hide Decoded;
      hide Freeing;
      FreeingNone(t, mem, freed, n);
      var i := 0;
      while i < FANOUT
        invariant i <= FANOUT && Freeing(t, old(mem), old(freed), mem, freed, n, i)
      {
        FreeingEntry(t, old(mem), old(freed), mem, freed, n, i);
        var pte := mem[n][i];
        ghost var m, f := mem, freed;
        if pte.valid && !pte.IsLeaf(level) {
          var child := pte.Pa();
          BelowToNext(t, n, i);
          FreeChild(child, level - 1, t);
          FreeingChild(t, old(mem), old(freed), m, f, mem, freed, n, i);
        } else {
          FreeingSkip(t, old(mem), old(freed), m, f, n, i);
        }
        mem := Put(mem, Loc(n, i), ZERO);
        i := i + 1;
      }
      FreeingDone(t, old(mem), old(freed), mem, freed, n);
    }

    /** pt.free() on the root: frees every table that mapping allocated, each once, and leaves the root empty. */
    method FreeAll()
      requires Valid()
      modifies this
      ensures Valid() && heap == old(heap) && allocs == 0
      ensures mem == map[root := ZeroTable()]
      ensures Only4K(T(), PAGES)
      ensures forall pg :: 0 <= pg < PAGES ==> Translate(T(), pg) == None
      ensures old(freed) <= freed && multiset(freed[|old(freed)|..]) == multiset(old(mem).Keys - {root})
      ensures |freed| - |old(freed)| == old(allocs)
    {
      hide WellFormed;
      hide Only4K;
      hide Translate;
      hide Below;
      hide Lists;
      hide Stands;
      hide ZeroTable;
      hide FreshFrames;
      hide Find;
      hide Abs;
      ghost var t := T();
      Standing(root, mem, place);
      Free(root, LEVEL_MAX, t);
      assert mem == map[root := ZeroTable()];
      ListsOthers(freed[|old(freed)|..], old(mem).Keys, root);
      place := map[root := Place(LEVEL_MAX, 0, 0)];
      allocs := 0;
      EmptyTree(root, mem, place);
      FreshFewer(heap, old(mem), mem, ADDR_LIMIT);
      assert mem.Keys == {root};
    }

    /** What unmap_vma does to one page: walk, and valid = 0 if there is a valid entry. */
    method Clear(va: nat)
      requires Valid() && Only4K(T(), PAGES)
      modifies this`mem
      ensures Valid() && Only4K(T(), PAGES) && Seats(T()) == Seats(old(T())) && OpDone(old(T()), T(), ClearOp(Page(va)))
    {
      hide WellFormed;
      hide Only4K;
      hide Find;
      hide FindTo;
      hide Abs;
      hide Seats;
      var r, level := Walk(va, 0);
      FindToStops(T(), Page(va), 0);
      LevelOfLeaf(T(), PAGES, Page(va));
      LeafOfTranslation(T(), Page(va));
      if r.Some? {
        Entry(r.value.node, r.value.slot);
        if mem[r.value.node][r.value.slot].valid {
          Invalidate(r.value, Page(va));
        }
      }
    }
  }

  // Runs of calls.

  /** A call that changes the page table: map_region, or the clearing of one page. */
  datatype Call = MapCall(va: nat, pa: nat, size: nat, perm: Perm) | ClearCall(va: nat)
  {
    predicate Valid() { MapCall? ==> size % PAGESIZE == 0 && va + size <= USER_END }

    function Op(): (op: Op)
      ensures op.Valid()
    {
      match this
      case MapCall(va, pa, size, perm) => MapOp(Region(va / PAGESIZE, size / PAGESIZE, pa / PAGESIZE, ADDR_LIMIT, perm))
      case ClearCall(va) => ClearOp(Page(va))
    }
  }

  ghost function Ops(calls: seq<Call>): (ops: seq<Op>)
    ensures |ops| == |calls| && AllValid(ops)
  {
    seq(|calls|, i requires 0 <= i < |calls| => calls[i].Op())
  }

  /** One call. */
  method Perform(pt: Pagetable, call: Call) returns (ok: bool)
    requires pt.Valid() && Only4K(pt.T(), PAGES) && call.Valid()
    modifies pt
    ensures pt.Valid() && Only4K(pt.T(), PAGES) && Fed(old(pt.T()), pt.T(), old(pt.heap), pt.heap)
    ensures ok <==> |old(pt.heap)| >= |call.Op().Tables() - Seats(old(pt.T()))|
    ensures ok ==> OpDone(old(pt.T()), pt.T(), call.Op()) && Seats(pt.T()) == Seats(old(pt.T())) + call.Op().Tables()
  {
    hide WellFormed;
    hide Only4K;
    hide Overrides;
    hide Translate;
    hide Seats;
    hide Fed;
    hide Wanted;
    hide Pagetable.Valid;
    hide Pagetable.T;
    match call
    case MapCall(va, pa, size, perm) =>
      ghost var done;
      ok, done := pt.MapRegion(va, pa, size, perm);
    case ClearCall(va) =>
      pt.Clear(va);
      FedNone(old(pt.T()), pt.T(), pt.heap);
      assert call.Op().Tables() - Seats(old(pt.T())) == {};
      ok := true;
  }

  /** A run of calls on a page table that translates nothing.  It goes through if and only if there are frames for all
      the tables that the calls need and that are not there, and then every page translates as the flat map has it. */
  method RunOn(pt: Pagetable, calls: seq<Call>) returns (ok: bool)
    requires pt.Valid() && Only4K(pt.T(), PAGES) && Agrees(pt.T(), map[])
    requires forall i :: 0 <= i < |calls| ==> calls[i].Valid()
    modifies pt
    ensures pt.Valid() && Only4K(pt.T(), PAGES)
    ensures ok <==> |old(pt.heap)| >= |RunTables(Ops(calls)) - Seats(old(pt.T()))|
    ensures ok ==> Agrees(pt.T(), FlatRun(Ops(calls)))
  {
    hide WellFormed;
    hide Only4K;
    hide Flat;
    hide OpDone;
    hide Fed;
    hide Agrees;
    hide Seats;
    hide Pagetable.Valid;
    hide Pagetable.T;
    ghost var ops, t0 := Ops(calls), pt.T();
    FedNone(t0, t0, pt.heap);
    assert ops[..0] == [];
    var i := 0;
    while i < |calls|
      invariant 0 <= i <= |calls|
      invariant pt.Valid() && Only4K(pt.T(), PAGES) && Agrees(pt.T(), FlatRun(ops[..i]))
      invariant Fed(t0, pt.T(), old(pt.heap), pt.heap) && Seats(pt.T()) == Seats(t0) + RunTables(ops[..i])
    {
      ghost var t, h := pt.T(), pt.heap;
      RunNext(ops, i);
      RunTablesMore(ops, i + 1);
      ok := Perform(pt, calls[i]);
      if !ok {
        RunStarves(t0, t, old(pt.heap), h, RunTables(ops[..i]), ops[i].Tables(), RunTables(ops));
        return;
      }
      FlatStep(t, pt.T(), ops[i], FlatRun(ops[..i]));
      FedTrans(t0, t, pt.T(), old(pt.heap), h, pt.heap);
      i := i + 1;
    }
    assert ops[..i] == ops;
    RunFed(t0, pt.T(), old(pt.heap), pt.heap, RunTables(ops));
    ok := true;
  }

  /** A run of calls on a new page table.  It goes through if and only if there is a frame for each table that the calls
      need, and then every lookup, at any address, gives what the flat map of the calls gives. */
  method Run(root: nat, heap: seq<nat>, calls: seq<Call>) returns (pt: Pagetable, ok: bool)
    requires FreshFrames(heap, map[root := ZeroTable()], ADDR_LIMIT)
    requires forall i :: 0 <= i < |calls| ==> calls[i].Valid()
    ensures fresh(pt) && pt.Valid() && Only4K(pt.T(), PAGES)
    ensures ok <==> |heap| >= |RunTables(Ops(calls))|
    ensures ok ==> forall va: nat :: Lookup(pt.T(), va) == FlatLookup(FlatRun(Ops(calls)), va)
  {
    hide WellFormed;
    hide Only4K;
    hide Translate;
    hide Lookup;
    hide FlatLookup;
    hide FlatRun;
    hide RunTables;
    hide Seats;
    hide Pagetable.Valid;
    hide Pagetable.T;
    pt := new Pagetable(root, heap);
    RootSeat(pt.T(), Ops(calls));
    ok := RunOn(pt, calls);
    if ok {
      forall va: nat
        ensures Lookup(pt.T(), va) == FlatLookup(FlatRun(Ops(calls)), va)
      {
        LookupAgrees(pt.T(), FlatRun(Ops(calls)), va);
      }
    }
  }

  /** What the lookup after a run gives, from the calls alone: the last call that was on the page of va decides.  A
      mapping gives the byte at the same distance from its physical address, with exactly its permissions; one without
      read permission, and a clearing, give nothing. */
  lemma LastCallDecides(calls: seq<Call>, i: nat, va: nat)
    requires i < |calls| && va < 0x1_0000_0000_0000
    requires match calls[i]
             case MapCall(start, _, size, _) => start / PAGESIZE <= va / PAGESIZE < start / PAGESIZE + size / PAGESIZE
             case ClearCall(a) => a / PAGESIZE % 0x10_0000_0000 == va / PAGESIZE
    requires forall j :: i < j < |calls| ==>
               match calls[j]
               case MapCall(start, _, size, _) =>
                 !(start / PAGESIZE <= va / PAGESIZE < start / PAGESIZE + size / PAGESIZE)
               case ClearCall(a) => a / PAGESIZE % 0x10_0000_0000 != va / PAGESIZE
    ensures FlatLookup(FlatRun(Ops(calls)), va)
            == match calls[i]
               case MapCall(start, pa, size, perm) =>
                 if perm.read then
                   VmMap(true, PAGESIZE * ((pa / PAGESIZE + (va / PAGESIZE - start / PAGESIZE)) % 0x10_0000_0000)
                               + va % PAGESIZE, perm, PAGESIZE - va % PAGESIZE)
                 else VmMap(false, 0, NONE, 0)
               case ClearCall(_) => VmMap(false, 0, NONE, 0)
  {
    hide FlatRun;
    var ops, pg := Ops(calls), va / PAGESIZE;
    assert Page(va) == pg;
    forall j | 0 <= j < |calls|
      ensures ops[j] == calls[j].Op()
      ensures calls[j].ClearCall? ==> ops[j] == ClearOp(calls[j].va / PAGESIZE % 0x10_0000_0000)
    {
    }
    LastOp(ops, i, pg);
  }

  lemma NoCallNothing(calls: seq<Call>, va: nat)
    requires va < 0x1_0000_0000_0000
    requires forall j :: 0 <= j < |calls| ==>
               match calls[j]
               case MapCall(start, _, size, _) =>
                 !(start / PAGESIZE <= va / PAGESIZE < start / PAGESIZE + size / PAGESIZE)
               case ClearCall(a) => a / PAGESIZE % 0x10_0000_0000 != va / PAGESIZE
    ensures FlatLookup(FlatRun(Ops(calls)), va) == VmMap(false, 0, NONE, 0)
  {
    hide FlatRun;
    var ops, pg := Ops(calls), va / PAGESIZE;
    assert Page(va) == pg;
    forall j | 0 <= j < |calls|
      ensures ops[j] == calls[j].Op()
      ensures calls[j].ClearCall? ==> ops[j] == ClearOp(calls[j].va / PAGESIZE % 0x10_0000_0000)
    {
    }
    NoOp(ops, pg);
  }

  /** Lookups after map_region, in the terms of its caller. */
  lemma RegionReads(t: Tree, t': Tree, va: nat, pa: nat, size: nat, perm: Perm, w: nat)
    requires WellFormed(t) && WellFormed(t') && Only4K(t', PAGES)
    requires Overrides(t, t', Region(va / PAGESIZE, size / PAGESIZE, pa / PAGESIZE, ADDR_LIMIT, perm))
    requires va % PAGESIZE == 0 && pa % PAGESIZE == 0 && size % PAGESIZE == 0
    requires pa + size <= 0x1_0000_0000_0000 && w < 0x1_0000_0000_0000
    ensures var m, m' := Lookup(t, w), Lookup(t', w);
            if va <= w < va + size then
              m' == if perm.read then VmMap(true, pa + (w - va), perm, PAGESIZE - w % PAGESIZE) else VmMap(false, 0, NONE, 0)
            else m'.valid == m.valid && (m.valid ==> m'.pa == m.pa && m'.perm == m.perm)
  {
    hide WellFormed;
    hide Only4K;
    hide Lookup;
    hide Overrides;
    RegionLookup(t, t', Region(va / PAGESIZE, size / PAGESIZE, pa / PAGESIZE, ADDR_LIMIT, perm), PAGES, w);
  }

  lemma RootSeat(t: Tree, ops: seq<Op>)
    requires WellFormed(t) && t.nodes.Keys == {t.root}
    ensures RunTables(ops) - Seats(t) == RunTables(ops)
  {
    hide LinkedDown;
    hide LinkedUp;
    hide RunTables;
    assert SeatOf(t.place[t.root]) == Seat(LEVEL_MAX, 0);
    forall s | s in RunTables(ops)
      ensures s !in Seats(t)
    {
      RunTablesLow(ops, s);
    }
  }
}
