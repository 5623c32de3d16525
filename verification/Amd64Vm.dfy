/** Page tables of rekernel/arch/amd64/vm.d: 4-level paging entries (section 4.5 of Intel SDM Vol. 3A), with a
    region mapper that looks a leaf table up only when the address enters another 2 MB. */
module Amd64Vm {
  import opened Base
  import opened PageTree
  import opened Tables

  const USER_END: nat := 0x8000_0000_0000
  const USER_PAGES: nat := 0x8_0000_0000
  const FRAME_LIMIT: nat := 0x10_0000_0000_0000 // frame numbers of 64-bit addresses

  /** An entry: its frame number and the flag bits that the kernel reads or writes. */
  datatype Pte = Pte(frame: nat, p: bool, w: bool, u: bool, ps: bool)
  {
    function Pa(): nat { frame * PAGESIZE }

    /** Setting the address clears every flag. */
    function SetPa(pa: nat): Pte { Pte(pa / PAGESIZE % FRAME_LIMIT, false, false, false, false) }

    predicate IsLeaf(level: nat) { level == 0 || ps }

    function SetPerm(perm: Perm): Pte { this.(p := perm.read, w := perm.write, u := perm.user) }

    function GetPerm(): Perm { Perm(p, w, false, u, false) }
  }

  const ZERO := Pte(0, false, false, false, false)

  /** The permissions an entry can express. */
  function Kept(perm: Perm): Perm { perm.(exec := false, cow := false) }

  type Table = seq<Pte>

  function ZeroTable(): (t: Table)
    ensures |t| == FANOUT
  {
    seq(FANOUT, _ => ZERO)
  }

  /** pageindex: here level 0 is the root table and level 3 the leaf table. */
  function PageIndex(va: nat, level: nat): nat
    requires level <= 3
  {
    match level
    case 0 => va / 0x80_0000_0000 % FANOUT
    case 1 => va / 0x4000_0000 % FANOUT
    case 2 => va / 0x20_0000 % FANOUT
    case _ => va / 0x1000 % FANOUT
  }

  lemma PageIndexIsSlot(va: nat, level: nat)
    requires level <= 3
    ensures PageIndex(va, level) == Slot(Page(va), 3 - level)
  {
    SlotOfAddress(va, 3 - level);
  }

  function Decode(p: Pte, level: nat): Entry {
    if !p.p then Hole
    else if p.IsLeaf(level) then Leaf(p.Pa(), p.GetPerm())
    else Link(p.Pa())
  }

  ghost function Abs(root: nat, mem: map<nat, Table>, place: map<nat, Place>): (t: Tree)
    requires mem.Keys == place.Keys
    ensures t.root == root && t.nodes.Keys == mem.Keys && t.place == place
  {
    TreeOf(Decode, root, mem, place)
  }

  /** The entry that links to a new table with the permissions of the mapping being made. */
  function LinkPte(p: Pte, c: nat, perm: Perm): Pte {
    p.SetPa(c).SetPerm(perm)
  }

  /** Memory after a new zeroed table was linked in. */
  function LinkedIn(mem: map<nat, Table>, n: nat, slot: nat, c: nat, perm: Perm): (mem': map<nat, Table>)
    requires n in mem && slot < |mem[n]|
    ensures mem'.Keys == mem.Keys + {c}
    ensures c !in mem ==> forall m :: m in mem && m != n ==> mem'[m] == mem[m]
    ensures c != n ==> |mem'[n]| == |mem[n]| && forall i :: 0 <= i < |mem[n]| && i != slot ==> mem'[n][i] == mem[n][i]
  {
    mem[n := mem[n][slot := LinkPte(mem[n][slot], c, perm)]][c := ZeroTable()]
  }

  /** A link has the permissions of the mapping, as far as it has bits for them, and is no large page. */
  lemma LinkIs(mem: map<nat, Table>, n: nat, slot: nat, c: nat, perm: Perm)
    requires n in mem && slot < |mem[n]| && c !in mem && c / PAGESIZE < FRAME_LIMIT && perm.read
    ensures var m := LinkedIn(mem, n, slot, c, perm);
            slot < |m[n]| && m[n][slot] == Pte(c / PAGESIZE, true, perm.write, perm.user, false)
  {
  }

  lemma ZeroDecodes(level: nat)
    ensures Decoded(Decode, ZeroTable(), level) == EmptyNode()
  {
  }

  lemma AbsGrown(root: nat, mem: map<nat, Table>, place: map<nat, Place>, n: nat, slot: nat, c: nat, perm: Perm)
    requires mem.Keys == place.Keys && n in mem && slot < |mem[n]| && place[n].level > 0 && c !in mem
    requires c % PAGESIZE == 0 && c / PAGESIZE < FRAME_LIMIT && perm.read
    ensures var g := Grown(Abs(root, mem, place), n, slot, c);
            Abs(root, LinkedIn(mem, n, slot, c, perm), g.place) == g
  {
    var p := LinkPte(mem[n][slot], c, perm);
    assert p.Pa() == c;
    forall level: nat
      ensures Decoded(Decode, ZeroTable(), level) == EmptyNode()
    {
      ZeroDecodes(level);
    }
    hide ZeroTable;
    TreeGrown(Decode, root, mem, place, n, slot, c, p, ZeroTable());
  }

  /** What linking a fresh table into the hole where the descent to pg ends does. */
  lemma Linking(root: nat, mem: map<nat, Table>, place: map<nat, Place>, n: nat, slot: nat, c: nat, perm: Perm, pg: nat)
    requires mem.Keys == place.Keys && WellFormed(Abs(root, mem, place)) && n in mem && slot < FANOUT && c !in mem
    requires place[n].level > 0 && c % PAGESIZE == 0 && c / PAGESIZE < FRAME_LIMIT && pg < PAGES && perm.read
    requires var h := Find(Abs(root, mem, place), pg); h.node == n && h.slot == slot && h.entry.Hole?
    requires UserShape(Abs(root, mem, place))
    ensures |mem[n]| == FANOUT && |Abs(root, mem, place).nodes[n]| == FANOUT
    ensures var t := Abs(root, mem, place);
            var g := Grown(t, n, slot, c);
            && LinkedIn(mem, n, slot, c, perm).Keys == g.place.Keys
            && Abs(root, LinkedIn(mem, n, slot, c, perm), g.place) == g && Grew(t, g, c, pg) && UserShape(g)
            && g.place[c].level == place[n].level - 1 && (root in place && root != c ==> g.place[root] == place[root])
  {
    hide WellFormed;
    hide Find;
    hide LinkedIn;
    hide Only4K;
    hide LargeAtUserEnd;
    hide SameTranslation;
    hide Seats;
    EntryAt(Decode, root, mem, place, n, slot);
    AbsGrown(root, mem, place, n, slot, c, perm);
    hide Abs;
    var t := Abs(root, mem, place);
    GrownGrew(t, n, slot, c, pg);
    LargeKept(t, Grown(t, n, slot, c));
    GrewKeeps4K(t, Grown(t, n, slot, c), c, pg);
  }

  lemma LeafDecodes(p: Pte, pa: nat, perm: Perm)
    ensures Decode(p.SetPa(pa).SetPerm(perm), 0)
            == if perm.read then Leaf(pa / PAGESIZE % FRAME_LIMIT * PAGESIZE, Kept(perm)) else Hole
  {
  }

  /** n is the leaf table of the 2 MB with the given number. */
  ghost predicate LeafTable(t: Tree, n: nat, index: nat) {
    n in t.nodes && n in t.place && t.place[n].level == 0 && t.place[n].prefix == index
  }

  lemma IsLeafTable(t: Tree, va: nat)
    requires WellFormed(t) && va < USER_END && Find(t, Page(va)).level == 0
    ensures LeafTable(t, Find(t, Page(va)).node, va / 0x20_0000)
  {
    hide WellFormed;
    EntryNumber(va, 1);
  }

  lemma ThroughLeafTable(t: Tree, n: nat, va: nat)
    requires WellFormed(t) && va < USER_END && LeafTable(t, n, va / 0x20_0000)
    ensures Find(t, Page(va)).node == n && Find(t, Page(va)).level == 0
  {
    hide WellFormed;
    EntryNumber(va, 1);
    NodeSize(t, n);
    LeafLevel(t, n);
    FindThrough(t, n, Page(va));
  }

  /** The first page beyond user space is part of a large kernel page. */
  ghost predicate LargeAtUserEnd(t: Tree)
    requires WellFormed(t)
  {
    Find(t, USER_PAGES).entry.Leaf? && Find(t, USER_PAGES).level > 0
  }

  /** The user half has 4 KB pages only, and the kernel half begins with a large one. */
  ghost predicate UserShape(t: Tree) {
    WellFormed(t) && Only4K(t, USER_PAGES) && LargeAtUserEnd(t)
  }

  lemma GrewKeeps4K(t: Tree, g: Tree, c: nat, pg: nat)
    requires Grew(t, g, c, pg) && Only4K(t, USER_PAGES)
    ensures WellFormed(g) && Only4K(g, USER_PAGES)
  {
    hide WellFormed;
    hide Find;
    hide Seats;
  }

  lemma LargeKept(t: Tree, g: Tree)
    requires WellFormed(t) && WellFormed(g) && LargeAtUserEnd(t)
    requires forall pg :: 0 <= pg < PAGES && Find(t, pg).entry.Leaf? ==> Find(g, pg) == Find(t, pg)
    ensures LargeAtUserEnd(g)
  {
    hide WellFormed;
    hide Find;
  }

  /** A boot-time kernel table: every present entry maps a large page. */
  ghost predicate KernelTable(t: Table) {
    |t| == FANOUT && forall i :: 0 <= i < |t| && t[i].p ==> t[i].ps
  }

  /** kernel_map: the two root entries that every address space shares. */
  function KernelMap(t: Table, pdp: nat, upper: nat): Table
    requires |t| == FANOUT
  {
    t[256 := Pte(pdp / PAGESIZE, true, true, false, false)][511 := Pte(upper / PAGESIZE, true, true, false, false)]
  }

  function NewTables(root: nat, pdp: nat, pdpTable: Table, upper: nat, upperTable: Table): map<nat, Table> {
    map[root := KernelMap(ZeroTable(), pdp, upper), pdp := pdpTable, upper := upperTable]
  }

  function NewPlaces(root: nat, pdp: nat, upper: nat): map<nat, Place> {
    map[root := Place(3, 0, 0), pdp := Place(2, 256, root), upper := Place(2, 511, root)]
  }

  ghost predicate NewArgs(root: nat, pdp: nat, pdpTable: Table, upper: nat, upperTable: Table) {
    && KernelTable(pdpTable) && KernelTable(upperTable) && pdpTable[0].p
    && root != pdp && root != upper && pdp != upper
    && pdp % PAGESIZE == 0 && pdp / PAGESIZE < FRAME_LIMIT
    && upper % PAGESIZE == 0 && upper / PAGESIZE < FRAME_LIMIT
  }

  /** The lower half of the root is empty, and the upper half starts with a large page. */
  ghost predicate OnlyKernel(t: Tree) {
    && t.root in t.nodes && |t.nodes[t.root]| == FANOUT
    && (forall i :: 0 <= i < 256 ==> t.nodes[t.root][i].Hole?)
    && t.nodes[t.root][256].Link? && t.nodes[t.root][256].child in t.nodes
    && |t.nodes[t.nodes[t.root][256].child]| == FANOUT
    && t.nodes[t.nodes[t.root][256].child][0].Leaf?
  }

  lemma NewTree(root: nat, pdp: nat, pdpTable: Table, upper: nat, upperTable: Table)
    requires NewArgs(root, pdp, pdpTable, upper, upperTable)
    ensures var t := Abs(root, NewTables(root, pdp, pdpTable, upper, upperTable), NewPlaces(root, pdp, upper));
            WellFormed(t) && OnlyKernel(t)
  {
    var mem, place := NewTables(root, pdp, pdpTable, upper, upperTable), NewPlaces(root, pdp, upper);
    var t := Abs(root, mem, place);
    NewNodes(root, pdp, pdpTable, upper, upperTable);
    hide Abs;
    hide KernelTable;
    assert Shape(t);
    assert LinkedDown(t, root) && LinkedDown(t, pdp) && LinkedDown(t, upper);
    assert LinkedUp(t, pdp) && LinkedUp(t, upper);
    hide LinkedDown;
    hide LinkedUp;
  }

  lemma NewNodes(root: nat, pdp: nat, pdpTable: Table, upper: nat, upperTable: Table)
    requires NewArgs(root, pdp, pdpTable, upper, upperTable)
    ensures var t := Abs(root, NewTables(root, pdp, pdpTable, upper, upperTable), NewPlaces(root, pdp, upper));
            && t.nodes[root] == EmptyNode()[256 := Link(pdp)][511 := Link(upper)]
            && |t.nodes[pdp]| == |t.nodes[upper]| == FANOUT && t.nodes[pdp][0].Leaf?
            && forall i :: 0 <= i < FANOUT ==> !t.nodes[pdp][i].Link? && !t.nodes[upper][i].Link?
  {
  }

  lemma UserSlot(pg: nat)
    requires pg <= USER_PAGES
    ensures pg < USER_PAGES ==> Slot(pg, 3) < 256
    ensures pg == USER_PAGES ==> Slot(pg, 3) == 256 && Slot(pg, 2) == 0
  {
    UpIsQuotient(pg);
  }

  /** In a new address space no user page is mapped, and the page after the last user page is in a large page. */
  lemma NewFinds(t: Tree, pg: nat)
    requires WellFormed(t) && OnlyKernel(t) && pg <= USER_PAGES
    ensures Find(t, pg).level >= 2
    ensures Find(t, pg).entry == if pg < USER_PAGES then Hole else t.nodes[t.nodes[t.root][256].child][0]
  {
    hide WellFormed;
    hide Up;
    hide Slot;
    UserSlot(pg);
    RootOnPath(t, pg);
    RootLevel(t);
    if pg == USER_PAGES {
      LinkOnPath(t, t.root, pg);
      var c := t.nodes[t.root][256].child;
      assert Descend(t, c, pg) == Hit(c, 0, 2, t.nodes[c][0]);
    }
  }

  lemma DecodeNoLink(p: Pte)
    ensures !Decode(p, 0).Link?
  {
  }

  /** Below USER_END an entry above the 4 KB level is no leaf. */
  lemma NoLeafAbove(t0: Tree, h0: seq<nat>, t: Tree, h: seq<nat>, n: nat, pg: nat, level: nat)
    requires Walking(t0, h0, t, h, n, pg, level, 0) && WellFormed(t) && Only4K(t, USER_PAGES) && pg < USER_PAGES
    requires level > 0 && n in t.nodes && |t.nodes[n]| == FANOUT
    ensures !t.nodes[n][Slot(pg, level)].Leaf?
  {
    hide WellFormed;
    hide Walking;
    hide Find;
    hide FindTo;
    hide Slot;
    if t.nodes[n][Slot(pg, level)].Leaf? {
      WalkStop(t0, h0, t, h, n, pg, level, 0);
    }
  }

  /** Lookups after map_region, in the terms of its caller: an entry keeps read, write and user permission, and has no bit
      for the others. */
  lemma RegionReads(t: Tree, t': Tree, va: nat, pa: nat, size: nat, perm: Perm, w: nat)
    requires WellFormed(t) && WellFormed(t') && Only4K(t', USER_PAGES) && perm.read
    requires Overrides(t, t', Region(va / PAGESIZE, size / PAGESIZE, pa / PAGESIZE, FRAME_LIMIT, Kept(perm)))
    requires va % PAGESIZE == 0 && pa % PAGESIZE == 0 && size % PAGESIZE == 0
    requires pa + size <= 0x1_0000_0000_0000_0000 && w < 0x8000_0000_0000
    ensures var m, m' := Lookup(t, w), Lookup(t', w);
            if va <= w < va + size then
              m' == VmMap(true, pa + (w - va), Perm(true, perm.write, false, perm.user, false), PAGESIZE - w % PAGESIZE)
            else m'.valid == m.valid && (m.valid ==> m'.pa == m.pa && m'.perm == m.perm)
  {
    hide WellFormed;
    hide Only4K;
    hide Lookup;
    hide Overrides;
    RegionLookup(t, t', Region(va / PAGESIZE, size / PAGESIZE, pa / PAGESIZE, FRAME_LIMIT, Kept(perm)), USER_PAGES, w);
  }

  /** A leaf table that is there needs no table more. */
  lemma LeafTableSeats(t: Tree, n: nat, va: nat)
    requires WellFormed(t) && va < USER_END && LeafTable(t, n, va / 0x20_0000)
    ensures Seats(t) == Seats(t) + Way(Page(va), 0)
  {
    hide WellFormed;
    ThroughLeafTable(t, n, va);
    AllSeats(t, Page(va));
  }

  /** A page table with the kernel's tables linked into its upper half. */
  class Pagetable {
    const root: nat
    var mem: map<nat, Table>
    var heap: seq<nat> // the frames ptalloc will return, in order; then it returns null
    ghost var place: map<nat, Place>

    ghost predicate Valid()
      reads this
    {
      && mem.Keys == place.Keys
      && UserShape(Abs(root, mem, place))
      && FreshFrames(heap, mem, FRAME_LIMIT)
      && root in mem && |mem[root]| == FANOUT && place[root].level == LEVEL_MAX
    }

    ghost function T(): (t: Tree)
      requires Valid()
      reads this
      ensures WellFormed(t) && Only4K(t, USER_PAGES) && LargeAtUserEnd(t)
      ensures t.root == root && t.nodes.Keys == mem.Keys && t.place == place
    {
      Abs(root, mem, place)
    }

    /** knew!(Pagetable)() followed by kernel_map */
    constructor (root: nat, heap: seq<nat>, pdp: nat, pdpTable: Table, upper: nat, upperTable: Table)
      requires NewArgs(root, pdp, pdpTable, upper, upperTable)
      requires FreshFrames(heap, NewTables(root, pdp, pdpTable, upper, upperTable), FRAME_LIMIT)
      ensures Valid() && this.root == root && this.heap == heap
      ensures forall pg :: 0 <= pg < USER_PAGES ==> Translate(T(), pg) == None
      ensures T().nodes[root] == EmptyNode()[256 := Link(pdp)][511 := Link(upper)]
      ensures mem[root][256].w && !mem[root][256].u && mem[root][511].w && !mem[root][511].u
    {
      hide WellFormed;
      hide Abs;
      this.root, this.heap := root, heap;
      mem := NewTables(root, pdp, pdpTable, upper, upperTable);
      place := NewPlaces(root, pdp, upper);
      new;
      NewTree(root, pdp, pdpTable, upper, upperTable);
      NewNodes(root, pdp, pdpTable, upper, upperTable);
      ghost var t := Abs(root, mem, place);
      forall pg | 0 <= pg <= USER_PAGES
        ensures Find(t, pg).level >= 2
        ensures pg < USER_PAGES ==> Find(t, pg).entry.Hole?
        ensures pg == USER_PAGES ==> Find(t, pg).entry.Leaf?
      {
        NewFinds(t, pg);
      }
    }

    /** The root entries that map the kernel. */
    ghost function KernelHalf(): Table
      requires Valid()
      reads this
    {
      mem[root][FANOUT / 2..]
    }

    lemma KernelEntry(i: nat)
      requires Valid() && 256 <= i < 512
      ensures |KernelHalf()| == 256 && KernelHalf()[i - 256] == mem[root][i]
    {
    }

    /** What the tree has where a table has an entry. */
    lemma Entry(n: nat, slot: nat)
      requires Valid() && n in mem && slot < FANOUT
      ensures |mem[n]| == |T().nodes[n]| == FANOUT && T().nodes[n][slot] == Decode(mem[n][slot], place[n].level)
    {
      hide WellFormed;
      hide Only4K;
      hide LargeAtUserEnd;
      EntryAt(Decode, root, mem, place, n, slot);
    }

    /** pte.pa = ...; pte.perm = ... for a newly allocated table. */
    method LinkFresh(n: nat, slot: nat, perm: Perm, ghost pg: nat) returns (c: nat)
      requires Valid() && heap != [] && n in mem && slot < FANOUT && place[n].level > 0 && perm.read
      requires pg < PAGES && Find(T(), pg).node == n && Find(T(), pg).slot == slot && Find(T(), pg).entry.Hole?
      requires n == root ==> slot < FANOUT / 2
      modifies this
      ensures Valid() && KernelHalf() == old(KernelHalf()) && heap == old(heap)[1..] && c == old(heap)[0]
      ensures n in mem && slot < |mem[n]| && mem[n][slot] == Pte(c / PAGESIZE, true, perm.write, perm.user, false)
      ensures Grew(old(T()), T(), c, pg) && place[c].level == old(place[n].level) - 1
    {
      hide UserShape;
      hide WellFormed;
      hide Find;
      hide Grew;
      hide Abs;
      hide FreshFrames;
      hide LinkedIn;
      hide Grown;
      ghost var t := T();
      FreshFirst(heap, mem, FRAME_LIMIT);
      c := heap[0];
      heap := heap[1..];
      Linking(root, mem, place, n, slot, c, perm, pg);
      LinkIs(mem, n, slot, c, perm);
      mem := LinkedIn(mem, n, slot, c, perm);
      place := Grown(t, n, slot, c).place;
      FreshRest(old(heap), old(mem), mem, FRAME_LIMIT);
      assert mem[root][FANOUT / 2..] == old(mem)[root][FANOUT / 2..];
    }

    /** Finds the entry at which the descent to va stops, and its level; at a link of the end level, one level less. */
    method Walk(va: nat, endlevel: nat) returns (r: Loc, end: int)
      requires Valid() && endlevel <= LEVEL_MAX
      ensures var h := FindTo(T(), Page(va), endlevel);
              r == Loc(h.node, h.slot) && end == if h.entry.Link? then h.level - 1 else h.level
    {
      hide WellFormed;
      hide Only4K;
      hide LargeAtUserEnd;
      hide Abs;
      hide Valid;
      ghost var pg := Page(va);
      RootOnPath(T(), pg);
      RootLevel(T());
      var pt := root;
      r := Loc(root, 0);
      var i := LEVEL_MAX;
      while i >= endlevel
        invariant endlevel - 1 <= i <= LEVEL_MAX
        invariant if i >= endlevel then
                    && OnPath(T(), pt, pg) && place[pt].level == i
                    && FindTo(T(), pg, endlevel) == DescendTo(T(), pt, pg, endlevel)
                  else
                    var h := FindTo(T(), pg, endlevel);
                    r == Loc(h.node, h.slot) && h.entry.Link? && h.level == endlevel
        decreases i
      {
        var level := 3 - i;
        PageIndexIsSlot(va, level);
        r := Loc(pt, PageIndex(va, level));
        Entry(pt, r.slot);
        LinkOnPath(T(), pt, pg);
        var pte := mem[r.node][r.slot];
        if !pte.p || pte.IsLeaf(i) {
          break;
        }
        pt := pte.Pa();
        i := i - 1;
      }
      end := i;
    }

    /** The leaf table of a user address, with missing tables allocated on the way; None when that fails. */
    method LookupL4(va: nat, perm: Perm) returns (r: Option<nat>)
      requires Valid() && va < USER_END && perm.read
      modifies this
      ensures Valid() && KernelHalf() == old(KernelHalf())
      ensures SameTranslation(old(T()), T())
      ensures r.Some? ==> Find(T(), Page(va)).node == r.value && Find(T(), Page(va)).level == 0
      ensures r.None? ==> heap == []
      ensures Fed(old(T()), T(), old(heap), heap) && Seats(T()) <= Seats(old(T())) + Way(Page(va), 0)
      ensures r.Some? <==> Seats(T()) == Seats(old(T())) + Way(Page(va), 0)
      ensures Reached(old(T()), T(), Page(va))
    {
      hide Reached;
      hide WellFormed;
      hide Only4K;
      hide LargeAtUserEnd;
      hide SameTranslation;
      hide Abs;
      hide Seats;
      hide Way;
      hide Fed;
      hide Find;
      hide FindTo;
      hide Grew;
      hide Walking;
      hide FreshFrames;
      ghost var t0, pg := T(), Page(va);
      WalkStart(t0, heap, pg, 0);
      var pt := root;
      var i := 0;
      while i <= 2
        invariant 0 <= i <= 3
        invariant Valid() && KernelHalf() == old(KernelHalf()) && (pt == root ==> i == 0)
        invariant Walking(t0, old(heap), T(), heap, pt, pg, 3 - i, 0)
      {
        ghost var t, h := T(), heap;
        Walked(t0, old(heap), t, h, pt, pg, 3 - i, 0);
        PageIndexIsSlot(va, i);
        UserSlot(pg);
        var slot := PageIndex(va, i);
        Entry(pt, slot);
        var pte := mem[pt][slot];
        LevelOfLeaf(t, USER_PAGES, pg);
        if !pte.p {
          WalkStop(t0, old(heap), t, h, pt, pg, 3 - i, 0);
          if heap == [] {
            WalkFails(t0, old(heap), t, h, pt, pg, 3 - i, 0);
            WayMore(pg, 3 - i, 0);
            ReachedAt(t0, t, pg, 3 - i);
            return None;
          }
          ghost var n := pt;
          pt := LinkFresh(pt, slot, perm, pg);
          WalkGrew(t0, old(heap), t, h, n, pg, 3 - i, 0, T(), pt);
        } else {
          NoLeafAbove(t0, old(heap), t, h, pt, pg, 3 - i);
          WalkLink(t0, old(heap), t, h, pt, pg, 3 - i, 0);
          pt := pte.Pa();
        }
        Walked(t0, old(heap), T(), heap, pt, pg, 3 - (i + 1), 0);
        RootLevel(T());
        i := i + 1;
      }
      Walked(t0, old(heap), T(), heap, pt, pg, 0, 0);
      WalkStop(t0, old(heap), T(), heap, pt, pg, 0, 0);
      FindToStops(T(), pg, 0);
      ReachedAt(t0, T(), pg, 0);
      r := Some(pt);
    }

    method Store(l: Loc, pte: Pte, ghost pg: nat)
      requires Valid() && pg < USER_PAGES
      requires l == Loc(Find(T(), pg).node, Find(T(), pg).slot) && Find(T(), pg).level == 0
      modifies this`mem
      ensures Valid() && Find(T(), pg).level == 0 && KernelHalf() == old(KernelHalf())
      ensures var e := Decode(pte, 0);
              Translate(T(), pg) == if e.Leaf? then Some(Mapping(e.pa, e.perm)) else None
      ensures forall q :: 0 <= q < PAGES && q != pg ==> Translate(T(), q) == old(Translate(T(), q))
      ensures Seats(T()) == Seats(old(T()))
    {
      hide WellFormed;
      hide Only4K;
      hide Translate;
      hide Find;
      hide TreeOf;
      hide Seats;
      hide Decode;
      ghost var t := T();
      RootLevel(t);
      DecodeNoLink(pte);
      TreeStored(Decode, root, mem, place, l, pte, pg);
      mem := Put(mem, l, pte);
    }

    /** Writes the leaf entry of va in its leaf table. */
    method PutPage(l4: nat, va: nat, pa: nat, perm: Perm)
      requires Valid() && va < USER_END && perm.read && LeafTable(T(), l4, va / 0x20_0000)
      modifies this`mem
      ensures Valid() && KernelHalf() == old(KernelHalf()) && LeafTable(T(), l4, va / 0x20_0000)
      ensures Overrides(old(T()), T(), Region(Page(va), 1, pa / PAGESIZE, FRAME_LIMIT, Kept(perm)))
      ensures Seats(T()) == Seats(old(T()))
    {
      hide WellFormed;
      hide Only4K;
      hide LargeAtUserEnd;
      hide SameTranslation;
      hide Translate;
      hide Overrides;
      hide Find;
      hide Abs;
      hide Seats;
      hide Decode;
      hide FreshFrames;
      ghost var t := T();
      ThroughLeafTable(t, l4, va);
      PageIndexIsSlot(va, 3);
      SameRefl(t);
      var l := Loc(l4, PageIndex(va, 3));
      Entry(l.node, l.slot);
      var pte := mem[l.node][l.slot];
      LeafDecodes(pte, pa, perm);
      pte := pte.SetPa(pa);
      pte := pte.SetPerm(perm);
      Store(l, pte, Page(va));
      OverridesOne(t, t, T(), Page(va), pa / PAGESIZE, FRAME_LIMIT, Kept(perm));
    }

    /** One page: the table is looked up if there is none at hand, and the entry written.  The first result is the leaf
        table. */
    method MapPage(l4: Option<nat>, va: nat, pa: nat, perm: Perm) returns (table: Option<nat>)
      requires Valid() && va < USER_END && perm.read && (l4.Some? ==> LeafTable(T(), l4.value, va / 0x20_0000))
      modifies this
      ensures Valid() && KernelHalf() == old(KernelHalf())
      ensures Fed(old(T()), T(), old(heap), heap) && Seats(T()) <= Seats(old(T())) + Way(Page(va), 0)
      ensures table.Some? <==> Seats(T()) == Seats(old(T())) + Way(Page(va), 0)
      ensures Reached(old(T()), T(), Page(va))
      ensures table.Some? ==>
                && LeafTable(T(), table.value, va / 0x20_0000)
                && Overrides(old(T()), T(), Region(Page(va), 1, pa / PAGESIZE, FRAME_LIMIT, Kept(perm)))
      ensures table.None? ==> heap == [] && SameTranslation(old(T()), T())
    {
      hide Reached;
      hide WellFormed;
      hide Only4K;
      hide LargeAtUserEnd;
      hide SameTranslation;
      hide Overrides;
      hide Find;
      hide LeafTable;
      hide Seats;
      hide Way;
      hide Fed;
      hide Valid;
      hide T;
      ghost var t := T();
      SameRefl(t);
      FedNone(t, t, heap);
      table := l4;
      if table.None? {
        table := LookupL4(va, perm);
        if table.None? {
          return;
        }
        IsLeafTable(T(), va);
      } else {
        LeafTableSeats(t, table.value, va);
      }
      ghost var u := T();
      PutPage(table.value, va, pa, perm);
      FedSame(t, u, T(), old(heap), heap);
      ReachedAt(t, T(), Page(va), 0);
      OverridesAfterSame(t, u, T(), Region(Page(va), 1, pa / PAGESIZE, FRAME_LIMIT, Kept(perm)));
    }

    /** Maps size / 4096 pages, looking the leaf table up only when va enters another 2 MB.  It fails when, and only when,
        the tables that are missing are more than the frames that are left. */
    method MapRegion(start: nat, paddr: nat, bytes: nat, perm: Perm) returns (ok: bool, ghost done: nat)
      requires Valid() && bytes % PAGESIZE == 0 && perm.read
      requires start + bytes <= USER_END
      modifies this
      ensures Valid() && KernelHalf() == old(KernelHalf())
      ensures Overrides(old(T()), T(), Region(start / PAGESIZE, done, paddr / PAGESIZE, FRAME_LIMIT, Kept(perm)))
      ensures if ok then done == bytes / PAGESIZE else done < bytes / PAGESIZE && heap == []
      ensures ok <==> |old(heap)| >= Lacking(old(T()), start / PAGESIZE, bytes / PAGESIZE)
      ensures Fed(old(T()), T(), old(heap), heap)
      ensures ok ==> Seats(T()) == Seats(old(T())) + Wanted(start / PAGESIZE, bytes / PAGESIZE)
      ensures !ok ==> PartWay(old(T()), T(), start / PAGESIZE, done)
                      && Lacking(old(T()), start / PAGESIZE, done) <= |old(heap)| < Lacking(old(T()), start / PAGESIZE, done + 1)
    {
      hide WellFormed;
      hide Only4K;
      hide LargeAtUserEnd;
      hide SameTranslation;
      hide Overrides;
      hide LeafTable;
      hide Seats;
      hide Way;
      hide Wanted;
      hide Fed;
      hide Lacking;
      hide Page;
      hide MappedTo;
      hide Reached;
      hide PartWay;
      hide Valid;
      hide T;
      ghost var t0, r := T(), Region(start / PAGESIZE, 0, paddr / PAGESIZE, FRAME_LIMIT, Kept(perm));
      done := 0;
      MappedNone(t0, heap, r);
      var va, pa, size := start, paddr, bytes;
      var lastIndex: int := -1;
      var l4: Option<nat> := None;
      while size != 0
        invariant size == bytes - done * PAGESIZE >= 0 && va == start + done * PAGESIZE && pa == paddr + done * PAGESIZE
        invariant Valid() && KernelHalf() == old(KernelHalf())
        invariant lastIndex != -1 ==> lastIndex >= 0 && l4.Some? && LeafTable(T(), l4.value, lastIndex)
        invariant MappedTo(t0, old(heap), T(), heap, r, done)
        decreases size
      {
        ghost var t, h := T(), heap;
        PageAfter(start, done * PAGESIZE, done);
        PageAfter(paddr, done * PAGESIZE, done);
        var curIndex := va / 0x20_0000;
        l4 := MapPage(if curIndex != lastIndex then None else l4, va, pa, perm);
        lastIndex := curIndex;
        if l4.None? {
          MappedNoMore(t0, old(heap), t, h, T(), heap, r, done, bytes / PAGESIZE);
          return false, done;
        }
        MappedNext(t0, old(heap), t, h, T(), heap, r, done);
        done := done + 1;
        va, pa, size := va + PAGESIZE, pa + PAGESIZE, size - PAGESIZE;
      }
      MappedAll(t0, old(heap), T(), heap, r, done);
      ok := true;
    }

    /** The simple mapper that the cached one stands for: it looks the leaf table up for every page. */
    method MapEach(start: nat, paddr: nat, bytes: nat, perm: Perm) returns (ok: bool, ghost done: nat)
      requires Valid() && bytes % PAGESIZE == 0 && perm.read
      requires start + bytes <= USER_END
      modifies this
      ensures Valid() && KernelHalf() == old(KernelHalf())
      ensures Overrides(old(T()), T(), Region(start / PAGESIZE, done, paddr / PAGESIZE, FRAME_LIMIT, Kept(perm)))
      ensures if ok then done == bytes / PAGESIZE else done < bytes / PAGESIZE && heap == []
      ensures ok <==> |old(heap)| >= Lacking(old(T()), start / PAGESIZE, bytes / PAGESIZE)
      ensures Fed(old(T()), T(), old(heap), heap)
      ensures ok ==> Seats(T()) == Seats(old(T())) + Wanted(start / PAGESIZE, bytes / PAGESIZE)
      ensures !ok ==> PartWay(old(T()), T(), start / PAGESIZE, done)
                      && Lacking(old(T()), start / PAGESIZE, done) <= |old(heap)| < Lacking(old(T()), start / PAGESIZE, done + 1)
    {
      hide WellFormed;
      hide Only4K;
      hide LargeAtUserEnd;
      hide SameTranslation;
      hide Overrides;
      hide LeafTable;
      hide Seats;
      hide Way;
      hide Wanted;
      hide Fed;
      hide Lacking;
      hide Page;
      hide MappedTo;
      hide Reached;
      hide PartWay;
      hide Valid;
      hide T;
      ghost var t0, r := T(), Region(start / PAGESIZE, 0, paddr / PAGESIZE, FRAME_LIMIT, Kept(perm));
      done := 0;
      MappedNone(t0, heap, r);
      var i := 0;
      while i < bytes
        invariant i == done * PAGESIZE && i <= bytes
        invariant Valid() && KernelHalf() == old(KernelHalf())
        invariant MappedTo(t0, old(heap), T(), heap, r, done)
      {
        ghost var t, h := T(), heap;
        PageAfter(start, i, done);
        PageAfter(paddr, i, done);
        var l4 := MapPage(None, start + i, paddr + i, perm);
        if l4.None? {
          MappedNoMore(t0, old(heap), t, h, T(), heap, r, done, bytes / PAGESIZE);
          return false, done;
        }
        MappedNext(t0, old(heap), t, h, T(), heap, r, done);
        done := done + 1;
        i := i + PAGESIZE;
      }
      MappedAll(t0, old(heap), T(), heap, r, done);
      ok := true;
    }

    method VmLookup(va: nat) returns (m: VmMap)
      requires Valid()
      ensures m == Lookup(T(), va)
    {
      hide WellFormed;
      hide Only4K;
      hide LargeAtUserEnd;
      hide Find;
      hide FindTo;
      hide Abs;
      var r, level := Walk(va, 0);
      FindToStops(T(), Page(va), 0);
      Entry(r.node, r.slot);
      var pte := mem[r.node][r.slot];
      if !pte.p {
        return VmMap(false, 0, NONE, 0);
      }
      var size := LevelSize(level);
      m := VmMap(true, pte.Pa() + va % size, pte.GetPerm(), size - va % size);
    }

    /** The loop of unmap_vma on this format: every walk gets the level that the walk before it returned. */
    method UnmapPages(start: nat, size: nat)
      requires Valid() && start % PAGESIZE == 0 && size % PAGESIZE == 0 && size > 0 && start + size <= USER_END
      requires AllMapped(T(), start / PAGESIZE, size / PAGESIZE)
      modifies this
      ensures Valid() && KernelHalf() == old(KernelHalf())
      ensures Cleared(old(T()), T(), start / PAGESIZE, size / PAGESIZE)
    {
      hide WellFormed;
      hide FindTo;
      hide LargeAtUserEnd;
      hide Seats;
      hide Valid;
      hide T;
      hide Only4K;
      hide Find;
      hide Translate;
      hide Cleared;
      hide AllMapped;
      hide Abs;
      ghost var t, base, done := T(), start / PAGESIZE, 0;
      ClearedNone(t, base);
      StillMapped(t, t, base, size / PAGESIZE, 0, USER_PAGES);
      var lvl: nat := 0;
      FindToStops(T(), Page(start), 0);
      var pte, l := Walk(start, lvl);
      lvl := l;
      var i := 0;
      while i < size
        invariant i == done * PAGESIZE && i <= size && lvl == 0
        invariant Valid() && KernelHalf() == old(KernelHalf()) && Cleared(t, T(), base, done)
      {
        StillMapped(t, T(), base, size / PAGESIZE, done, USER_PAGES);
        assert Page(start + i) == base + done;
        ghost var u := T();
        FindToStops(T(), base + done, 0);
        pte, l := Walk(start + i, lvl);
        lvl := l;
        Entry(pte.node, pte.slot);
        Store(pte, mem[pte.node][pte.slot].(p := false), base + done);
        ClearedNext(t, u, T(), base, done);
        done := done + 1;
        i := i + PAGESIZE;
      }
    }
  }

  /** The cached mapper and the simple one, on tables that start alike: both succeed or neither does, and then they stop
      at the same page; in either case they leave the same translation, the same kernel half, tables for the same ranges
      and the same frames. */
  method BothMappers(a: Pagetable, b: Pagetable, start: nat, paddr: nat, bytes: nat, perm: Perm)
    returns (ok: bool, ghost done: nat)
    requires a != b && a.Valid() && b.Valid() && a.T() == b.T() && a.heap == b.heap
    requires a.KernelHalf() == b.KernelHalf()
    requires bytes % PAGESIZE == 0 && perm.read && start + bytes <= USER_END
    modifies a, b
    ensures a.Valid() && b.Valid() && a.KernelHalf() == b.KernelHalf() == old(a.KernelHalf())
    ensures SameTranslation(a.T(), b.T()) && Seats(a.T()) == Seats(b.T()) && a.heap == b.heap
    ensures Overrides(old(a.T()), a.T(), Region(start / PAGESIZE, done, paddr / PAGESIZE, FRAME_LIMIT, Kept(perm)))
    ensures if ok then done == bytes / PAGESIZE else done < bytes / PAGESIZE && a.heap == []
    ensures ok <==> |old(a.heap)| >= Lacking(old(a.T()), start / PAGESIZE, bytes / PAGESIZE)
  {
    hide WellFormed;
    hide Only4K;
    hide LargeAtUserEnd;
    hide SameTranslation;
    hide Overrides;
    hide Seats;
    hide Lacking;
    hide PartWay;
    hide Fed;
    hide Pagetable.Valid;
    hide Pagetable.T;
    ghost var t, base := a.T(), start / PAGESIZE;
    var ok1, done1 := a.MapRegion(start, paddr, bytes, perm);
    var ok2, done2 := b.MapEach(start, paddr, bytes, perm);
    ok, done := ok1, done1;
    if ok {
      FedAlike(t, a.T(), b.T(), old(a.heap), a.heap, b.heap);
    } else {
      SameStop(t, |old(a.heap)|, base, done1, done2);
      SameTables(t, a.T(), b.T(), old(a.heap), base, done);
    }
    OverridesDetermine(t, a.T(), b.T(), Region(base, done, paddr / PAGESIZE, FRAME_LIMIT, Kept(perm)));
  }
}
