/** The meaning of a four-level page table, apart from any entry format.

    A tree is a set of 512-entry nodes named by physical address.  An entry is a hole, a link to a node one
    level down, or a leaf.  Levels count down from 3 (512 GB per entry) to 0 (4 KB per entry), as in
    rekernel/arch/arm64/vm.d and rekernel/arch/amd64/vm.d.  Pages are numbered by va / 4096. */
module PageTree {
  import opened Base

  const FANOUT: nat := 512
  const LEVEL_MAX: nat := 3
  const PAGES: nat := 0x10_0000_0000 // 2^36 pages are told apart by four 9-bit indices

  datatype Perm = Perm(read: bool, write: bool, exec: bool, user: bool, cow: bool)

  const NONE := Perm(false, false, false, false, false)

  datatype Entry = Hole | Link(child: nat) | Leaf(pa: nat, perm: Perm)

  type Node = seq<Entry>

  /** Where a node sits: its level, the common leading index bits of the pages below it, and the node linking to it. */
  datatype Place = Place(level: nat, prefix: nat, parent: nat)

  datatype Tree = Tree(root: nat, nodes: map<nat, Node>, place: map<nat, Place>)

  /** The entry at which a descent stops. */
  datatype Hit = Hit(node: nat, slot: nat, level: nat, entry: Entry)

  /** The page of va, as far as four nine-bit indices tell pages apart. */
  function Page(va: nat): (pg: nat)
    ensures pg < PAGES
  {
    va / PAGESIZE % PAGES
  }

  lemma PageAfter(va: nat, i: nat, done: nat)
    requires i == done * PAGESIZE
    ensures (va + i) / PAGESIZE == va / PAGESIZE + done
    ensures va + i < PAGES * PAGESIZE ==> Page(va + i) == va / PAGESIZE + done
  {
  }

  /** pg shifted right by k nine-bit indices. */
  function Up(pg: nat, k: nat): nat {
    if k == 0 then pg else Up(pg / FANOUT, k - 1)
  }

  /** The low k nine-bit indices of pg. */
  function Low(pg: nat, k: nat): nat {
    if k == 0 then 0 else FANOUT * Low(pg / FANOUT, k - 1) + pg % FANOUT
  }

  function Slot(pg: nat, level: nat): (s: nat)
    ensures s < FANOUT
  {
    Up(pg, level) % FANOUT
  }

  lemma {:induction false} UpStep(pg: nat, k: nat)
    ensures Up(pg, k + 1) == Up(pg, k) / FANOUT
    decreases k
  {
    if k > 0 {
      UpStep(pg / FANOUT, k - 1);
    }
  }

  lemma UpPages(pg: nat)
    requires pg < PAGES
    ensures Up(pg, 4) == 0
  {
    UpStep(pg, 3);
    UpStep(pg, 2);
    UpStep(pg, 1);
    UpStep(pg, 0);
  }

  /** The root is in place, every node has a place and FANOUT entries. */
  ghost predicate Shape(t: Tree) {
    && t.root in t.nodes
    && t.nodes.Keys == t.place.Keys
    && t.place[t.root].level == LEVEL_MAX
    && t.place[t.root].prefix == 0
    && (forall n :: n in t.nodes ==> |t.nodes[n]| == FANOUT)
  }

  /** Every link of n names a node whose place is the one that n and the slot give it. */
  ghost predicate LinkedDown(t: Tree, n: nat) {
    && n in t.nodes && n in t.place
    && forall i :: 0 <= i < |t.nodes[n]| && t.nodes[n][i].Link? ==>
         && t.place[n].level > 0
         && t.nodes[n][i].child in t.nodes && t.nodes[n][i].child in t.place
         && t.nodes[n][i].child != t.root
         && t.place[t.nodes[n][i].child] == Place(t.place[n].level - 1, t.place[n].prefix * FANOUT + i, n)
  }

  /** Every node but the root is linked from its parent. */
  ghost predicate LinkedUp(t: Tree, n: nat) {
    && n in t.place
    && var p := t.place[n];
    && p.parent in t.nodes && p.parent in t.place
    && t.place[p.parent].level == p.level + 1
    && t.place[p.parent].level <= LEVEL_MAX
    && t.place[p.parent].prefix == p.prefix / FANOUT
    && |t.nodes[p.parent]| == FANOUT
    && t.nodes[p.parent][p.prefix % FANOUT] == Link(n)
  }

  ghost predicate WellFormed(t: Tree) {
    && Shape(t)
    && (forall n :: n in t.nodes ==> LinkedDown(t, n))
    && (forall n :: n in t.nodes && n != t.root ==> LinkedUp(t, n))
  }

  // The parts of a well-formed tree, one at a time.

  lemma Shaped(t: Tree)
    requires WellFormed(t)
    ensures Shape(t)
  {
  }

  lemma DownFrom(t: Tree, n: nat)
    requires WellFormed(t) && n in t.nodes
    ensures LinkedDown(t, n)
  {
    hide LinkedDown;
    hide LinkedUp;
  }

  lemma UpFrom(t: Tree, n: nat)
    requires WellFormed(t) && n in t.nodes && n != t.root
    ensures LinkedUp(t, n)
  {
    hide LinkedDown;
    hide LinkedUp;
  }

  lemma NodeSize(t: Tree, n: nat)
    requires WellFormed(t) && n in t.nodes
    ensures |t.nodes[n]| == FANOUT && n in t.place
  {
    hide WellFormed;
    Shaped(t);
  }

  lemma RootLevel(t: Tree)
    requires WellFormed(t)
    ensures t.root in t.nodes && t.root in t.place && t.place[t.root].level == LEVEL_MAX
  {
    hide WellFormed;
    Shaped(t);
  }

  /** There is no link at the 4 KB level. */
  lemma LeafLevel(t: Tree, n: nat)
    requires WellFormed(t) && n in t.nodes && n in t.place && t.place[n].level == 0
    ensures forall i :: 0 <= i < |t.nodes[n]| ==> !t.nodes[n][i].Link?
  {
    hide WellFormed;
    DownFrom(t, n);
  }

  lemma LevelBound(t: Tree, n: nat)
    requires WellFormed(t) && n in t.nodes
    ensures n in t.place && t.place[n].level <= LEVEL_MAX
    ensures n != t.root ==> t.place[n].level < LEVEL_MAX
  {
    hide WellFormed;
    Shaped(t);
    if n != t.root {
      UpFrom(t, n);
    }
  }

  /** n lies on the way down to page pg. */
  ghost predicate OnPath(t: Tree, n: nat, pg: nat) {
    n in t.nodes && n in t.place && t.place[n].prefix == Up(pg, t.place[n].level + 1)
  }

  lemma RootOnPath(t: Tree, pg: nat)
    requires WellFormed(t) && pg < PAGES
    ensures OnPath(t, t.root, pg)
  {
    hide WellFormed;
    Shaped(t);
    UpPages(pg);
  }

  /** A link on the way to pg leads to a node on the way to pg. */
  lemma LinkOnPath(t: Tree, n: nat, pg: nat)
    requires WellFormed(t) && OnPath(t, n, pg)
    ensures |t.nodes[n]| == FANOUT
    ensures var e := t.nodes[n][Slot(pg, t.place[n].level)];
            e.Link? ==> t.place[n].level > 0 && OnPath(t, e.child, pg)
                        && t.place[e.child].level == t.place[n].level - 1
  {
    hide WellFormed;
    DownFrom(t, n);
    NodeSize(t, n);
    UpStep(pg, t.place[n].level);
  }

  /** The entry reached from n, a node on the way to pg, by following links as far as they go. */
  ghost function Descend(t: Tree, n: nat, pg: nat): (h: Hit)
    requires WellFormed(t) && OnPath(t, n, pg)
    ensures h.node in t.nodes && OnPath(t, h.node, pg) && h.level == t.place[h.node].level
    ensures h.slot < |t.nodes[h.node]| && h.slot == Slot(pg, h.level) && h.entry == t.nodes[h.node][h.slot]
    ensures !h.entry.Link?
    ensures h.level <= t.place[n].level
    decreases t.place[n].level
  {
    LinkOnPath(t, n, pg);
    var level := t.place[n].level;
    var e := t.nodes[n][Slot(pg, level)];
    if e.Link? then Descend(t, e.child, pg) else Hit(n, Slot(pg, level), level, e)
  }

  ghost function Find(t: Tree, pg: nat): (h: Hit)
    requires WellFormed(t) && pg < PAGES
    ensures h.node in t.nodes && OnPath(t, h.node, pg) && h.level == t.place[h.node].level
    ensures h.slot < |t.nodes[h.node]| && h.slot == Slot(pg, h.level) && h.entry == t.nodes[h.node][h.slot]
    ensures !h.entry.Link? && h.level <= LEVEL_MAX
  {
    RootOnPath(t, pg);
    RootLevel(t);
    Descend(t, t.root, pg)
  }

  /** The entry reached when the descent goes no further down than a given level. */
  ghost function DescendTo(t: Tree, n: nat, pg: nat, end: nat): (h: Hit)
    requires WellFormed(t) && OnPath(t, n, pg) && end <= t.place[n].level
    ensures h.node in t.nodes && OnPath(t, h.node, pg) && h.level == t.place[h.node].level
    ensures h.slot < |t.nodes[h.node]| && h.slot == Slot(pg, h.level) && h.entry == t.nodes[h.node][h.slot]
    ensures end <= h.level <= t.place[n].level && (h.entry.Link? ==> h.level == end)
    decreases t.place[n].level
  {
    LinkOnPath(t, n, pg);
    var level := t.place[n].level;
    var e := t.nodes[n][Slot(pg, level)];
    if e.Link? && level > end then DescendTo(t, e.child, pg, end) else Hit(n, Slot(pg, level), level, e)
  }

  ghost function FindTo(t: Tree, pg: nat, end: nat): (h: Hit)
    requires WellFormed(t) && pg < PAGES && end <= LEVEL_MAX
    ensures h.node in t.nodes && OnPath(t, h.node, pg) && h.level == t.place[h.node].level
    ensures h.slot < |t.nodes[h.node]| && h.slot == Slot(pg, h.level) && h.entry == t.nodes[h.node][h.slot]
    ensures end <= h.level <= LEVEL_MAX && (h.entry.Link? ==> h.level == end)
  {
    RootOnPath(t, pg);
    RootLevel(t);
    DescendTo(t, t.root, pg, end)
  }

  lemma {:induction false} DescendToStops(t: Tree, n: nat, pg: nat, end: nat)
    requires WellFormed(t) && OnPath(t, n, pg) && end <= t.place[n].level
    ensures !DescendTo(t, n, pg, end).entry.Link? ==> DescendTo(t, n, pg, end) == Descend(t, n, pg)
    decreases t.place[n].level
  {
    hide WellFormed;
    LinkOnPath(t, n, pg);
    var level := t.place[n].level;
    var e := t.nodes[n][Slot(pg, level)];
    if e.Link? && level > end {
      DescendToStops(t, e.child, pg, end);
    }
  }

  /** A descent that does not end at a link ends where the full descent does; one to the 4 KB level always does. */
  lemma FindToStops(t: Tree, pg: nat, end: nat)
    requires WellFormed(t) && pg < PAGES && end <= LEVEL_MAX
    ensures !FindTo(t, pg, end).entry.Link? ==> FindTo(t, pg, end) == Find(t, pg)
    ensures end == 0 ==> FindTo(t, pg, end) == Find(t, pg)
  {
    hide WellFormed;
    RootOnPath(t, pg);
    RootLevel(t);
    DescendToStops(t, t.root, pg, end);
    var h := FindTo(t, pg, end);
    if end == 0 && h.entry.Link? {
      LeafLevel(t, h.node);
    }
  }

  lemma {:induction false} DescendToDeep(t: Tree, n: nat, pg: nat, end: nat)
    requires WellFormed(t) && OnPath(t, n, pg) && end <= Descend(t, n, pg).level
    ensures end <= t.place[n].level && DescendTo(t, n, pg, end) == Descend(t, n, pg)
    decreases t.place[n].level
  {
    hide WellFormed;
    LinkOnPath(t, n, pg);
    var e := t.nodes[n][Slot(pg, t.place[n].level)];
    if e.Link? {
      DescendToDeep(t, e.child, pg, end);
    }
  }

  /** A descent that would stop above the given level anyway is not cut short. */
  lemma FindToDeep(t: Tree, pg: nat, end: nat)
    requires WellFormed(t) && pg < PAGES && end <= Find(t, pg).level
    ensures FindTo(t, pg, end) == Find(t, pg)
  {
    hide WellFormed;
    RootOnPath(t, pg);
    DescendToDeep(t, t.root, pg, end);
  }

  /** A translated page: the physical address of its first byte, and its leaf permissions. */
  datatype Mapping = Mapping(pa: nat, perm: Perm)

  ghost function Translate(t: Tree, pg: nat): Option<Mapping>
    requires WellFormed(t) && pg < PAGES
  {
    var h := Find(t, pg);
    if h.entry.Leaf? then Some(Mapping(h.entry.pa + PAGESIZE * Low(pg, h.level), h.entry.perm)) else None
  }

  /** No page below limit is translated by a leaf larger than 4 KB. */
  ghost predicate Only4K(t: Tree, limit: nat)
    requires WellFormed(t) && limit <= PAGES
  {
    forall pg :: 0 <= pg < limit && Find(t, pg).entry.Leaf? ==> Find(t, pg).level == 0
  }

  // Growing the tree: a fresh empty node is linked into a hole.

  function EmptyNode(): (n: Node)
    ensures |n| == FANOUT
  {
    seq(FANOUT, _ => Hole)
  }

  ghost function Grown(t: Tree, n: nat, slot: nat, c: nat): Tree
    requires n in t.nodes && n in t.place && slot < |t.nodes[n]|
  {
    var p := Place(if t.place[n].level > 0 then t.place[n].level - 1 else 0, t.place[n].prefix * FANOUT + slot, n);
    Tree(t.root, t.nodes[n := t.nodes[n][slot := Link(c)]][c := EmptyNode()], t.place[c := p])
  }

  /** Slot slot of node n is a hole above the 4 KB level, and c is a new name. */
  ghost predicate CanGrow(t: Tree, n: nat, slot: nat, c: nat) {
    && n in t.nodes && n in t.place && |t.nodes[n]| == FANOUT && slot < FANOUT && c !in t.nodes
    && t.place[n].level > 0 && t.nodes[n][slot].Hole?
  }

  lemma GrownShape(t: Tree, n: nat, slot: nat, c: nat)
    requires Shape(t) && CanGrow(t, n, slot, c)
    ensures Shape(Grown(t, n, slot, c))
  {
  }

  lemma GrownDown(t: Tree, n: nat, slot: nat, c: nat, m: nat)
    requires Shape(t) && CanGrow(t, n, slot, c) && m in t.nodes && LinkedDown(t, m)
    ensures LinkedDown(Grown(t, n, slot, c), m)
  {
    var g := Grown(t, n, slot, c);
    forall i | 0 <= i < |g.nodes[m]| && g.nodes[m][i].Link?
      ensures g.place[m].level > 0 && g.nodes[m][i].child in g.nodes && g.nodes[m][i].child in g.place
      ensures g.nodes[m][i].child != g.root
      ensures g.place[g.nodes[m][i].child] == Place(g.place[m].level - 1, g.place[m].prefix * FANOUT + i, m)
    {
      assert !(m == n && i == slot) ==> g.nodes[m][i] == t.nodes[m][i];
    }
  }

  lemma GrownUp(t: Tree, n: nat, slot: nat, c: nat, m: nat)
    requires Shape(t) && CanGrow(t, n, slot, c) && m in t.nodes && LinkedUp(t, m)
    ensures LinkedUp(Grown(t, n, slot, c), m)
  {
  }

  lemma GrownNew(t: Tree, n: nat, slot: nat, c: nat)
    requires Shape(t) && CanGrow(t, n, slot, c) && t.place[n].level <= LEVEL_MAX
    ensures LinkedUp(Grown(t, n, slot, c), c) && LinkedDown(Grown(t, n, slot, c), c)
  {
    DivModUnique(t.place[n].prefix * FANOUT + slot, FANOUT, t.place[n].prefix, slot);
  }

  lemma GrownWellFormed(t: Tree, n: nat, slot: nat, c: nat)
    requires WellFormed(t) && CanGrow(t, n, slot, c)
    ensures WellFormed(Grown(t, n, slot, c))
  {
    hide LinkedDown;
    hide LinkedUp;
    hide Shape;
    var g := Grown(t, n, slot, c);
    LevelBound(t, n);
    GrownShape(t, n, slot, c);
    GrownNew(t, n, slot, c);
    assert forall m :: m in g.nodes ==> m in t.nodes || m == c;
    forall m | m in g.nodes
      ensures LinkedDown(g, m)
    {
      if m in t.nodes {
        GrownDown(t, n, slot, c, m);
      }
    }
    forall m | m in g.nodes && m != g.root
      ensures LinkedUp(g, m)
    {
      if m in t.nodes {
        GrownUp(t, n, slot, c, m);
      }
    }
  }

  /** Growing moves a descent only when it ended in that hole, and then it ends in a hole further down. */
  lemma {:induction false} GrownDescend(t: Tree, n: nat, slot: nat, c: nat, m: nat, pg: nat)
    requires WellFormed(t) && CanGrow(t, n, slot, c) && WellFormed(Grown(t, n, slot, c)) && OnPath(t, m, pg)
    ensures OnPath(Grown(t, n, slot, c), m, pg)
    ensures var h, h' := Descend(t, m, pg), Descend(Grown(t, n, slot, c), m, pg);
            h' == h || (h.node == n && h.slot == slot && h.entry.Hole? && h'.entry.Hole?
                        && h'.node == c && h'.level == h.level - 1)
    decreases t.place[m].level
  {
    hide WellFormed;
    hide Slot;
    hide Up;
    var g := Grown(t, n, slot, c);
    var level := t.place[m].level;
    LinkOnPath(t, m, pg);
    LinkOnPath(g, m, pg);
    var e := t.nodes[m][Slot(pg, level)];
    if e.Link? {
      assert g.nodes[m][Slot(pg, level)] == e;
      GrownDescend(t, n, slot, c, e.child, pg);
    } else if m == n && Slot(pg, level) == slot {
      LinkOnPath(g, c, pg);
    }
  }

  lemma GrownFind(t: Tree, n: nat, slot: nat, c: nat, pg: nat)
    requires WellFormed(t) && CanGrow(t, n, slot, c) && WellFormed(Grown(t, n, slot, c)) && pg < PAGES
    ensures var h, h' := Find(t, pg), Find(Grown(t, n, slot, c), pg);
            h' == h || (h.entry.Hole? && h'.entry.Hole?)
  {
    hide WellFormed;
    RootOnPath(t, pg);
    GrownDescend(t, n, slot, c, t.root, pg);
  }

  /** A descent that ended in the filled hole now ends in the new node. */
  lemma GrownHit(t: Tree, n: nat, slot: nat, c: nat, pg: nat)
    requires WellFormed(t) && CanGrow(t, n, slot, c) && WellFormed(Grown(t, n, slot, c)) && pg < PAGES
    requires Find(t, pg).node == n && Find(t, pg).slot == slot
    ensures var g := Grown(t, n, slot, c);
            && Find(g, pg).node == c && Find(g, pg).entry.Hole? && OnPath(g, c, pg)
            && Find(g, pg).level == t.place[n].level - 1 == g.place[c].level
  {
    hide WellFormed;
    RootOnPath(t, pg);
    GrownDescend(t, n, slot, c, t.root, pg);
  }

  // The tables of a tree, by what they cover.

  datatype Seat = Seat(level: nat, prefix: nat)

  ghost function SeatOf(p: Place): Seat { Seat(p.level, p.prefix) }

  ghost function Seats(t: Tree): set<Seat> {
    set n | n in t.place :: SeatOf(t.place[n])
  }

  /** The tables on the way to pg from a level up to the root's. */
  ghost function Way(pg: nat, level: nat): set<Seat>
    decreases LEVEL_MAX - level
  {
    if level >= LEVEL_MAX then {} else {Seat(level, Up(pg, level + 1))} + Way(pg, level + 1)
  }

  /** The tables below the root that count pages from base on need. */
  ghost function Wanted(base: nat, count: nat): set<Seat> {
    if count == 0 then {} else Wanted(base, count - 1) + Way(base + count - 1, 0)
  }

  /** How many tables have to be allocated before count pages from base on can be mapped. */
  ghost function Lacking(t: Tree, base: nat, count: nat): nat {
    |Wanted(base, count) - Seats(t)|
  }

  /** No two nodes have the same level and prefix. */
  lemma {:induction false} PlaceInjective(t: Tree, m: nat, n: nat)
    requires WellFormed(t) && m in t.nodes && n in t.nodes && m in t.place && n in t.place
    requires t.place[m].level == t.place[n].level && t.place[m].prefix == t.place[n].prefix
    ensures m == n
    decreases LEVEL_MAX - t.place[m].level
  {
    hide WellFormed;
    LevelBound(t, m);
    LevelBound(t, n);
    if t.place[m].level < LEVEL_MAX {
      RootLevel(t);
      UpFrom(t, m);
      UpFrom(t, n);
      PlaceInjective(t, t.place[m].parent, t.place[n].parent);
    }
  }

  /** The table that a hole would link to is not in the tree. */
  lemma HoleSeat(t: Tree, n: nat, slot: nat, m: nat)
    requires WellFormed(t) && n in t.nodes && n in t.place && slot < FANOUT && m in t.nodes && m in t.place
    requires |t.nodes[n]| == FANOUT && t.nodes[n][slot].Hole? && 0 < t.place[n].level
    ensures SeatOf(t.place[m]) != Seat(t.place[n].level - 1, t.place[n].prefix * FANOUT + slot)
  {
    hide WellFormed;
    LevelBound(t, n);
    if SeatOf(t.place[m]) == Seat(t.place[n].level - 1, t.place[n].prefix * FANOUT + slot) {
      RootLevel(t);
      UpFrom(t, m);
      DivModUnique(t.place[m].prefix, FANOUT, t.place[n].prefix, slot);
      PlaceInjective(t, t.place[m].parent, n);
    }
  }

  lemma SeatsWith(t: Tree, g: Tree, c: nat)
    requires c !in t.place && c in g.place && g.place == t.place[c := g.place[c]]
    requires forall m :: m in t.place ==> SeatOf(t.place[m]) != SeatOf(g.place[c])
    ensures Seats(g) == Seats(t) + {SeatOf(g.place[c])} && SeatOf(g.place[c]) !in Seats(t)
  {
    hide SeatOf;
    assert forall m :: m in t.place ==> g.place[m] == t.place[m];
    forall s | s in Seats(g)
      ensures s in Seats(t) + {SeatOf(g.place[c])}
    {
      var m :| m in g.place && s == SeatOf(g.place[m]);
      assert m != c ==> m in t.place && s == SeatOf(t.place[m]);
    }
    forall s | s in Seats(t)
      ensures s in Seats(g)
    {
      var m :| m in t.place && s == SeatOf(t.place[m]);
      assert m in g.place && s == SeatOf(g.place[m]);
    }
    assert SeatOf(g.place[c]) in Seats(g);
  }

  lemma GrownSeats(t: Tree, n: nat, slot: nat, c: nat)
    requires WellFormed(t) && CanGrow(t, n, slot, c)
    ensures var g := Grown(t, n, slot, c);
            && Seats(g) == Seats(t) + {SeatOf(g.place[c])} && SeatOf(g.place[c]) !in Seats(t)
  {
    hide WellFormed;
    Shaped(t);
    var g := Grown(t, n, slot, c);
    forall m | m in t.place
      ensures SeatOf(t.place[m]) != SeatOf(g.place[c])
    {
      HoleSeat(t, n, slot, m);
    }
    SeatsWith(t, g, c);
  }

  /** g is t with a new empty node c on the way to pg: it translates as t does. */
  ghost predicate Grew(t: Tree, g: Tree, c: nat, pg: nat) {
    && WellFormed(t) && WellFormed(g) && SameTranslation(t, g) && pg < PAGES
    && Find(g, pg).node == c && Find(g, pg).entry.Hole? && OnPath(g, c, pg)
    && (forall q :: 0 <= q < PAGES && Find(t, q).entry.Leaf? ==> Find(g, q) == Find(t, q))
    && (forall limit :: 0 <= limit <= PAGES && Only4K(t, limit) ==> Only4K(g, limit))
    && Seats(g) == Seats(t) + {SeatOf(g.place[c])} && SeatOf(g.place[c]) !in Seats(t)
  }

  lemma GrownGrew(t: Tree, n: nat, slot: nat, c: nat, pg: nat)
    requires WellFormed(t) && CanGrow(t, n, slot, c)
    requires pg < PAGES && Find(t, pg).node == n && Find(t, pg).slot == slot
    ensures WellFormed(Grown(t, n, slot, c)) && Grew(t, Grown(t, n, slot, c), c, pg)
    ensures Grown(t, n, slot, c).place[c].level == t.place[n].level - 1
  {
    hide WellFormed;
    hide SameTranslation;
    hide Only4K;
    hide Seats;
    hide Find;
    GrownTranslates(t, n, slot, c);
    GrownHit(t, n, slot, c, pg);
    GrownSeats(t, n, slot, c);
  }

  /** Trees whose descents agree, up to the depth of the holes, translate alike. */
  lemma SameFinds(t: Tree, g: Tree)
    requires WellFormed(t) && WellFormed(g)
    requires forall pg :: 0 <= pg < PAGES ==>
               Find(g, pg) == Find(t, pg) || (Find(t, pg).entry.Hole? && Find(g, pg).entry.Hole?)
    ensures SameTranslation(t, g)
    ensures forall limit :: 0 <= limit <= PAGES && Only4K(t, limit) ==> Only4K(g, limit)
  {
    hide WellFormed;
    hide Find;
    forall pg | 0 <= pg < PAGES
      ensures Translate(g, pg) == Translate(t, pg)
    {
      assert Find(g, pg) == Find(t, pg) || (Find(t, pg).entry.Hole? && Find(g, pg).entry.Hole?);
    }
  }

  lemma GrownTranslates(t: Tree, n: nat, slot: nat, c: nat)
    requires WellFormed(t) && CanGrow(t, n, slot, c)
    ensures WellFormed(Grown(t, n, slot, c))
    ensures SameTranslation(t, Grown(t, n, slot, c))
    ensures forall pg :: 0 <= pg < PAGES && Find(t, pg).entry.Leaf? ==> Find(Grown(t, n, slot, c), pg) == Find(t, pg)
    ensures forall limit :: 0 <= limit <= PAGES && Only4K(t, limit) ==> Only4K(Grown(t, n, slot, c), limit)
  {
    hide WellFormed;
    hide Find;
    hide SameTranslation;
    hide Only4K;
    GrownWellFormed(t, n, slot, c);
    var g := Grown(t, n, slot, c);
    forall pg | 0 <= pg < PAGES
      ensures Find(g, pg) == Find(t, pg) || (Find(t, pg).entry.Hole? && Find(g, pg).entry.Hole?)
    {
      GrownFind(t, n, slot, c, pg);
    }
    SameFinds(t, g);
  }

  ghost predicate SameTranslation(t: Tree, t': Tree)
    requires WellFormed(t) && WellFormed(t')
  {
    forall pg :: 0 <= pg < PAGES ==> Translate(t', pg) == Translate(t, pg)
  }

  lemma SameRefl(t: Tree)
    requires WellFormed(t)
    ensures SameTranslation(t, t)
  {
    hide WellFormed;
    hide Translate;
  }

  lemma SameTrans(t: Tree, u: Tree, v: Tree)
    requires WellFormed(t) && WellFormed(u) && WellFormed(v)
    requires SameTranslation(t, u) && SameTranslation(u, v)
    ensures SameTranslation(t, v)
  {
    hide WellFormed;
    hide Translate;
  }

  // Where the frames of an allocator go.

  /** From t to t' the tree got one table for each frame that the allocator's list lost at its front. */
  ghost predicate Fed(t: Tree, t': Tree, heap: seq<nat>, heap': seq<nat>) {
    && |heap'| <= |heap| && heap' == heap[|heap| - |heap'|..]
    && Seats(t) <= Seats(t') && |Seats(t') - Seats(t)| == |heap| - |heap'|
  }

  lemma FedNone(t: Tree, t': Tree, heap: seq<nat>)
    requires Seats(t) == Seats(t')
    ensures Fed(t, t', heap, heap)
  {
    assert Seats(t') - Seats(t) == {};
  }

  lemma FedTrans(t: Tree, u: Tree, v: Tree, h: seq<nat>, h': seq<nat>, h'': seq<nat>)
    requires Fed(t, u, h, h') && Fed(u, v, h', h'')
    ensures Fed(t, v, h, h'')
  {
    hide Seats;
    assert Seats(v) - Seats(t) == (Seats(v) - Seats(u)) + (Seats(u) - Seats(t));
  }

  lemma FedOne(t: Tree, g: Tree, c: nat, pg: nat, heap: seq<nat>)
    requires Grew(t, g, c, pg) && heap != []
    ensures Fed(t, g, heap, heap[1..])
  {
    hide WellFormed;
    hide Seats;
    assert Seats(g) - Seats(t) == {SeatOf(g.place[c])};
  }

  lemma SeatOnPath(t: Tree, n: nat, pg: nat)
    requires OnPath(t, n, pg)
    ensures Seat(t.place[n].level, Up(pg, t.place[n].level + 1)) in Seats(t)
  {
    assert SeatOf(t.place[n]) in Seats(t);
  }

  lemma FedSame(t: Tree, u: Tree, v: Tree, h: seq<nat>, h': seq<nat>)
    requires Fed(t, u, h, h') && Seats(v) == Seats(u)
    ensures Fed(t, v, h, h')
  {
    hide Seats;
  }

  /** The same frames make the same number of tables. */
  lemma FedAlike(t: Tree, u: Tree, v: Tree, h: seq<nat>, hu: seq<nat>, hv: seq<nat>)
    requires Fed(t, u, h, hu) && Fed(t, v, h, hv) && Seats(u) == Seats(v)
    ensures hu == hv
  {
    hide Seats;
  }

  lemma WayTop(pg: nat)
    ensures Way(pg, LEVEL_MAX) == {}
  {
  }

  lemma WayStep(pg: nat, level: nat)
    requires 0 < level <= LEVEL_MAX
    ensures Way(pg, level - 1) == {Seat(level - 1, Up(pg, level))} + Way(pg, level)
  {
  }

  lemma {:induction false} WayMore(pg: nat, level: nat, end: nat)
    requires end <= level <= LEVEL_MAX
    ensures Way(pg, level) <= Way(pg, end)
    decreases level - end
  {
    if end < level {
      WayMore(pg, level, end + 1);
    }
  }

  lemma {:induction false} WayHas(pg: nat, level: nat, end: nat)
    requires end <= level < LEVEL_MAX
    ensures Seat(level, Up(pg, level + 1)) in Way(pg, end)
  {
    WayMore(pg, level, end);
  }

  /** Where a descent stops in a hole above the 4 KB level, the next table on the way is not in the tree. */
  lemma WayMissing(t: Tree, pg: nat)
    requires WellFormed(t) && pg < PAGES && Find(t, pg).entry.Hole? && Find(t, pg).level > 0
    ensures Seat(Find(t, pg).level - 1, Up(pg, Find(t, pg).level)) !in Seats(t)
  {
    hide WellFormed;
    Shaped(t);
    var h := Find(t, pg);
    UpStep(pg, h.level);
    forall m | m in t.place
      ensures SeatOf(t.place[m]) != Seat(h.level - 1, Up(pg, h.level))
    {
      HoleSeat(t, h.node, h.slot, m);
    }
  }

  lemma {:induction false} WantedMore(base: nat, less: nat, more: nat)
    requires less <= more
    ensures Wanted(base, less) <= Wanted(base, more)
    decreases more
  {
    hide Way;
    if less < more {
      WantedMore(base, less, more - 1);
    }
  }

  /** Three tables for each page are always enough. */
  lemma {:induction false} WantedFew(base: nat, count: nat)
    ensures |Wanted(base, count)| <= 3 * count
  {
    hide Way;
    if count > 0 {
      WantedFew(base, count - 1);
      WayFew(base + count - 1, 0);
      UnionFew(Wanted(base, count - 1), Way(base + count - 1, 0));
    }
  }

  lemma LackingFew(t: Tree, base: nat, count: nat)
    ensures Lacking(t, base, count) <= 3 * count
  {
    hide Seats;
    hide Wanted;
    WantedFew(base, count);
    NoMore(Wanted(base, count) - Seats(t), Wanted(base, count));
  }

  /** Mapping count pages uses up at most three frames for each. */
  lemma FedFew(t: Tree, t': Tree, h: seq<nat>, h': seq<nat>, base: nat, count: nat)
    requires Fed(t, t', h, h') && Seats(t') == Seats(t) + Wanted(base, count)
    ensures |h| - |h'| <= 3 * count
  {
    hide Seats;
    hide Wanted;
    WantedFew(base, count);
    NoMore(Seats(t') - Seats(t), Wanted(base, count));
  }

  lemma {:induction false} WayFew(pg: nat, level: nat)
    requires level <= LEVEL_MAX
    ensures |Way(pg, level)| <= LEVEL_MAX - level
    decreases LEVEL_MAX - level
  {
    if level < LEVEL_MAX {
      WayFew(pg, level + 1);
      UnionFew({Seat(level, Up(pg, level + 1))}, Way(pg, level + 1));
    }
  }

  lemma UnionFew<T>(a: set<T>, b: set<T>)
    ensures |a + b| <= |a| + |b|
  {
    assert a + b == a + (b - a);
    NoMore(b - a, b);
  }

  lemma Fewer<T>(a: set<T>, b: set<T>, x: T)
    requires a <= b && x in b && x !in a
    ensures |a| < |b|
  {
    assert a <= b - {x};
    NoMore(a, b - {x});
  }

  lemma {:induction false} NoMore<T>(a: set<T>, b: set<T>)
    requires a <= b
    ensures |a| <= |b|
    decreases a
  {
    if a != {} {
      var x :| x in a;
      NoMore(a - {x}, b - {x});
    }
  }

  /** The frames were enough exactly when every table that is wanted is there in the end. */
  lemma FedEnough(t: Tree, t': Tree, heap: seq<nat>, heap': seq<nat>, base: nat, count: nat)
    requires Fed(t, t', heap, heap') && Seats(t') <= Seats(t) + Wanted(base, count)
    ensures Seats(t') == Seats(t) + Wanted(base, count) ==> |heap| >= Lacking(t, base, count)
    ensures Seats(t') != Seats(t) + Wanted(base, count) && heap' == [] ==> |heap| < Lacking(t, base, count)
  {
    hide Seats;
    hide Wanted;
    var got, lack := Seats(t') - Seats(t), Wanted(base, count) - Seats(t);
    if Seats(t') == Seats(t) + Wanted(base, count) {
      assert got == lack;
    } else if heap' == [] {
      assert got <= lack;
      var x :| x in Seats(t) + Wanted(base, count) && x !in Seats(t');
      Fewer(got, lack, x);
    }
  }

  lemma {:induction false} PathSeats(t: Tree, n: nat, pg: nat)
    requires WellFormed(t) && OnPath(t, n, pg) && t.place[n].level <= LEVEL_MAX
    ensures Way(pg, t.place[n].level) <= Seats(t)
    decreases LEVEL_MAX - t.place[n].level
  {
    hide WellFormed;
    hide Seats;
    RootLevel(t);
    SeatOnPath(t, n, pg);
    if t.place[n].level < LEVEL_MAX {
      UpFrom(t, n);
      UpStep(pg, t.place[n].level + 1);
      PathSeats(t, t.place[n].parent, pg);
    }
  }

  /** Where a descent reaches the 4 KB level, all tables on the way are there. */
  lemma AllSeats(t: Tree, pg: nat)
    requires WellFormed(t) && pg < PAGES && Find(t, pg).level == 0
    ensures Seats(t) == Seats(t) + Way(pg, 0)
  {
    hide WellFormed;
    hide Seats;
    hide Find;
    hide Way;
    PathSeats(t, Find(t, pg).node, pg);
  }

  // A walk that allocates what is missing.

  /** A walk to pg that began with tree t0 and frames h0 has come to node n at a level and goes on down to level end;
      the tree is now t and the frames left are h. */
  ghost predicate Walking(t0: Tree, h0: seq<nat>, t: Tree, h: seq<nat>, n: nat, pg: nat, level: nat, end: nat) {
    && WellFormed(t0) && WellFormed(t) && pg < PAGES && end <= level <= LEVEL_MAX
    && OnPath(t, n, pg) && t.place[n].level == level && FindTo(t, pg, end) == DescendTo(t, n, pg, end)
    && SameTranslation(t0, t) && (forall limit :: 0 <= limit <= PAGES && Only4K(t0, limit) ==> Only4K(t, limit))
    && Fed(t0, t, h0, h) && Seats(t) == Seats(t0) + Way(pg, level)
  }

  /** What a walk has done to the tree so far. */
  lemma Walked(t0: Tree, h0: seq<nat>, t: Tree, h: seq<nat>, n: nat, pg: nat, level: nat, end: nat)
    requires Walking(t0, h0, t, h, n, pg, level, end)
    ensures WellFormed(t0) && WellFormed(t) && SameTranslation(t0, t)
    ensures forall limit :: 0 <= limit <= PAGES && Only4K(t0, limit) ==> Only4K(t, limit)
    ensures Fed(t0, t, h0, h) && Seats(t) == Seats(t0) + Way(pg, level)
    ensures OnPath(t, n, pg) && t.place[n].level == level && |t.nodes[n]| == FANOUT
  {
    hide WellFormed;
    hide FindTo;
    hide SameTranslation;
    hide Only4K;
    hide Fed;
    hide Seats;
    hide Way;
    NodeSize(t, n);
  }

  lemma WalkStart(t: Tree, h: seq<nat>, pg: nat, end: nat)
    requires WellFormed(t) && pg < PAGES && end <= LEVEL_MAX
    ensures Walking(t, h, t, h, t.root, pg, LEVEL_MAX, end)
  {
    hide WellFormed;
    hide SameTranslation;
    hide Only4K;
    hide Fed;
    hide Seats;
    RootOnPath(t, pg);
    RootLevel(t);
    SameRefl(t);
    FedNone(t, t, h);
    WayTop(pg);
  }

  /** The walk ends at an entry that is no link, and at the level where it is to end. */
  lemma WalkStop(t0: Tree, h0: seq<nat>, t: Tree, h: seq<nat>, n: nat, pg: nat, level: nat, end: nat)
    requires Walking(t0, h0, t, h, n, pg, level, end) && n in t.nodes && |t.nodes[n]| == FANOUT && WellFormed(t)
    requires level == end || !t.nodes[n][Slot(pg, level)].Link?
    ensures FindTo(t, pg, end) == Hit(n, Slot(pg, level), level, t.nodes[n][Slot(pg, level)])
    ensures !t.nodes[n][Slot(pg, level)].Link? ==> Find(t, pg) == FindTo(t, pg, end)
  {
    hide WellFormed;
    hide SameTranslation;
    hide Only4K;
    hide Fed;
    hide Seats;
    hide Find;
    hide FindTo;
    hide Slot;
    FindToStops(t, pg, end);
  }

  lemma WalkLink(t0: Tree, h0: seq<nat>, t: Tree, h: seq<nat>, n: nat, pg: nat, level: nat, end: nat)
    requires Walking(t0, h0, t, h, n, pg, level, end) && n in t.nodes && |t.nodes[n]| == FANOUT && level > end
    requires t.nodes[n][Slot(pg, level)].Link?
    ensures Walking(t0, h0, t, h, t.nodes[n][Slot(pg, level)].child, pg, level - 1, end)
  {
    hide WellFormed;
    hide SameTranslation;
    hide Only4K;
    hide Fed;
    hide Seats;
    hide Way;
    hide FindTo;
    hide Slot;
    LinkOnPath(t, n, pg);
    WayStep(pg, level);
    SeatOnPath(t, t.nodes[n][Slot(pg, level)].child, pg);
  }

  lemma WalkGrew(t0: Tree, h0: seq<nat>, t: Tree, h: seq<nat>, n: nat, pg: nat, level: nat, end: nat, g: Tree, c: nat)
    requires Walking(t0, h0, t, h, n, pg, level, end) && level > end && h != []
    requires Grew(t, g, c, pg) && g.place[c].level == level - 1
    ensures Walking(t0, h0, g, h[1..], c, pg, level - 1, end)
  {
    hide WellFormed;
    hide SameTranslation;
    hide Only4K;
    hide Fed;
    hide Seats;
    hide Way;
    hide Find;
    hide FindTo;
    hide Slot;
    WayStep(pg, level);
    SameTrans(t0, t, g);
    FedOne(t, g, c, pg, h);
    FedTrans(t0, t, g, h0, h, h[1..]);
    FindToDeep(g, pg, end);
  }

  /** A walk that cannot go on for want of a frame leaves a table missing. */
  lemma WalkFails(t0: Tree, h0: seq<nat>, t: Tree, h: seq<nat>, n: nat, pg: nat, level: nat, end: nat)
    requires Walking(t0, h0, t, h, n, pg, level, end) && WellFormed(t) && level > end
    requires Find(t, pg).entry.Hole? && Find(t, pg).level == level
    ensures Seats(t) != Seats(t0) + Way(pg, end)
  {
    hide WellFormed;
    hide SameTranslation;
    hide Only4K;
    hide Fed;
    hide Seats;
    hide Way;
    hide FindTo;
    hide Find;
    WayMissing(t, pg);
    WayHas(pg, level - 1, end);
  }

  // Writing a leaf or a hole over a leaf or a hole.

  ghost function Written(t: Tree, n: nat, slot: nat, e: Entry): Tree
    requires n in t.nodes && slot < |t.nodes[n]|
  {
    t.(nodes := t.nodes[n := t.nodes[n][slot := e]])
  }

  lemma WrittenShape(t: Tree, n: nat, slot: nat, e: Entry)
    requires Shape(t) && n in t.nodes && slot < |t.nodes[n]|
    ensures Shape(Written(t, n, slot, e))
  {
  }

  lemma WrittenDown(t: Tree, n: nat, slot: nat, e: Entry, m: nat)
    requires n in t.nodes && slot < |t.nodes[n]| && !e.Link? && LinkedDown(t, m)
    ensures LinkedDown(Written(t, n, slot, e), m)
  {
  }

  lemma WrittenUp(t: Tree, n: nat, slot: nat, e: Entry, m: nat)
    requires n in t.nodes && slot < |t.nodes[n]| && !t.nodes[n][slot].Link? && LinkedUp(t, m)
    ensures LinkedUp(Written(t, n, slot, e), m)
  {
  }

  lemma WrittenWellFormed(t: Tree, n: nat, slot: nat, e: Entry)
    requires WellFormed(t) && n in t.nodes && slot < |t.nodes[n]| && !t.nodes[n][slot].Link? && !e.Link?
    ensures WellFormed(Written(t, n, slot, e))
  {
    hide LinkedDown;
    hide LinkedUp;
    hide Shape;
    var w := Written(t, n, slot, e);
    WrittenShape(t, n, slot, e);
    assert forall m :: m in w.nodes <==> m in t.nodes;
    forall m | m in w.nodes
      ensures LinkedDown(w, m)
    {
      WrittenDown(t, n, slot, e, m);
    }
    forall m | m in w.nodes && m != w.root
      ensures LinkedUp(w, m)
    {
      WrittenUp(t, n, slot, e, m);
    }
  }

  lemma {:induction false} WrittenDescend(t: Tree, n: nat, slot: nat, e: Entry, m: nat, pg: nat)
    requires WellFormed(t) && n in t.nodes && slot < |t.nodes[n]| && !t.nodes[n][slot].Link? && !e.Link?
    requires WellFormed(Written(t, n, slot, e)) && OnPath(t, m, pg)
    ensures OnPath(Written(t, n, slot, e), m, pg)
    ensures var h := Descend(t, m, pg);
            Descend(Written(t, n, slot, e), m, pg) == if h.node == n && h.slot == slot then h.(entry := e) else h
    decreases t.place[m].level
  {
    hide WellFormed;
    hide Slot;
    hide Up;
    var w := Written(t, n, slot, e);
    var level := t.place[m].level;
    LinkOnPath(t, m, pg);
    LinkOnPath(w, m, pg);
    var old_e := t.nodes[m][Slot(pg, level)];
    if old_e.Link? {
      assert w.nodes[m][Slot(pg, level)] == old_e;
      WrittenDescend(t, n, slot, e, old_e.child, pg);
    }
  }

  lemma WrittenFind(t: Tree, n: nat, pg: nat, e: Entry, q: nat)
    requires WellFormed(t) && pg < PAGES && q < PAGES && !e.Link?
    requires Find(t, pg).node == n && Find(t, pg).level == 0
    requires WellFormed(Written(t, n, Slot(pg, 0), e))
    ensures Find(Written(t, n, Slot(pg, 0), e), q) == if q == pg then Find(t, q).(entry := e) else Find(t, q)
  {
    hide WellFormed;
    RootOnPath(t, q);
    WrittenDescend(t, n, Slot(pg, 0), e, t.root, q);
    UpStep(q, 0);
    UpStep(pg, 0);
  }

  lemma OneFindChanged(t: Tree, w: Tree, pg: nat, e: Entry)
    requires WellFormed(t) && WellFormed(w) && pg < PAGES && !e.Link? && Find(t, pg).level == 0
    requires forall q :: 0 <= q < PAGES ==> Find(w, q) == if q == pg then Find(t, q).(entry := e) else Find(t, q)
    ensures Translate(w, pg) == (if e.Leaf? then Some(Mapping(e.pa, e.perm)) else None) && Find(w, pg).level == 0
    ensures forall q :: 0 <= q < PAGES && q != pg ==> Translate(w, q) == Translate(t, q)
    ensures forall limit :: 0 <= limit <= PAGES && Only4K(t, limit) ==> Only4K(w, limit)
  {
    hide WellFormed;
    hide Find;
  }

  /** Writing the 4 KB entry of pg changes the translation of pg and of no other page. */
  lemma WrittenTranslates(t: Tree, n: nat, pg: nat, e: Entry)
    requires WellFormed(t) && pg < PAGES && !e.Link?
    requires Find(t, pg).node == n && Find(t, pg).level == 0
    ensures WellFormed(Written(t, n, Slot(pg, 0), e))
    ensures var w := Written(t, n, Slot(pg, 0), e);
            && Translate(w, pg) == (if e.Leaf? then Some(Mapping(e.pa, e.perm)) else None)
            && Find(w, pg).level == 0
            && (forall q :: 0 <= q < PAGES && q != pg ==> Find(w, q) == Find(t, q))
            && (forall q :: 0 <= q < PAGES && q != pg ==> Translate(w, q) == Translate(t, q))
            && (forall limit :: 0 <= limit <= PAGES && Only4K(t, limit) ==> Only4K(w, limit))
            && Seats(w) == Seats(t)
  {
    hide WellFormed;
    assert Seats(Written(t, n, Slot(pg, 0), e)) == Seats(t);
    hide Seats;
    hide Find;
    hide Translate;
    hide Only4K;
    WrittenWellFormed(t, n, Slot(pg, 0), e);
    hide Written;
    var w := Written(t, n, Slot(pg, 0), e);
    forall q | 0 <= q < PAGES
      ensures Find(w, q) == if q == pg then Find(t, q).(entry := e) else Find(t, q)
    {
      WrittenFind(t, n, pg, e, q);
    }
    OneFindChanged(t, w, pg, e);
  }

  // Mapping a run of pages to a run of frames.

  /** count pages from page base on, to frames from frame on; the entry format keeps frame numbers below limit. */
  datatype Region = Region(base: nat, count: nat, frame: nat, limit: nat, perm: Perm)
  {
    ghost predicate Holds(pg: nat) { base <= pg < base + count }

    ghost function Pages(): set<nat> {
      set pg: nat | base <= pg < base + count && Holds(pg)
    }

    /** An entry without read permission is not valid. */
    ghost function At(pg: nat): Option<Mapping>
      requires Holds(pg) && limit > 0
    {
      if perm.read then Some(Mapping((frame + (pg - base)) % limit * PAGESIZE, perm)) else None
    }
  }

  /** t' translates the pages of the region as the region says, and every other page as t does. */
  ghost predicate Overrides(t: Tree, t': Tree, r: Region)
    requires WellFormed(t) && WellFormed(t') && r.limit > 0
  {
    forall pg :: 0 <= pg < PAGES ==> Translate(t', pg) == if r.Holds(pg) then r.At(pg) else Translate(t, pg)
  }

  lemma OverridesNone(t: Tree, r: Region)
    requires WellFormed(t) && r.limit > 0 && r.count == 0
    ensures Overrides(t, t, r)
  {
    hide WellFormed;
    hide Translate;
  }

  lemma OverridesSame(t: Tree, u: Tree, v: Tree, r: Region)
    requires WellFormed(t) && WellFormed(u) && WellFormed(v) && r.limit > 0
    requires Overrides(t, u, r) && SameTranslation(u, v)
    ensures Overrides(t, v, r)
  {
    hide WellFormed;
    hide Translate;
  }

  lemma OverridesAfterSame(t: Tree, u: Tree, v: Tree, r: Region)
    requires WellFormed(t) && WellFormed(u) && WellFormed(v) && r.limit > 0
    requires SameTranslation(t, u) && Overrides(u, v, r)
    ensures Overrides(t, v, r)
  {
    hide WellFormed;
    hide Translate;
  }

  lemma OverridesNext(t: Tree, u: Tree, v: Tree, r: Region)
    requires WellFormed(t) && WellFormed(u) && WellFormed(v) && r.limit > 0
    requires Overrides(t, u, r)
    requires Overrides(u, v, r.(base := r.base + r.count, count := 1, frame := r.frame + r.count))
    ensures Overrides(t, v, r.(count := r.count + 1))
  {
    hide WellFormed;
    var last := r.(base := r.base + r.count, count := 1, frame := r.frame + r.count);
    var all := r.(count := r.count + 1);
    forall pg | 0 <= pg < PAGES
      ensures Translate(v, pg) == if all.Holds(pg) then all.At(pg) else Translate(t, pg)
    {
      assert Translate(u, pg) == if r.Holds(pg) then r.At(pg) else Translate(t, pg);
      assert Translate(v, pg) == if last.Holds(pg) then last.At(pg) else Translate(u, pg);
    }
  }

  /** From t to t' the first done pages of the region were mapped, with frames from h for the tables they lacked. */
  ghost predicate MappedTo(t: Tree, h: seq<nat>, t': Tree, h': seq<nat>, r: Region, done: nat) {
    && WellFormed(t) && WellFormed(t') && r.limit > 0 && Overrides(t, t', r.(count := done))
    && Fed(t, t', h, h') && Seats(t') == Seats(t) + Wanted(r.base, done)
  }

  lemma MappedNone(t: Tree, h: seq<nat>, r: Region)
    requires WellFormed(t) && r.limit > 0
    ensures MappedTo(t, h, t, h, r, 0)
  {
    hide WellFormed;
    hide Overrides;
    hide Fed;
    hide Seats;
    OverridesNone(t, r.(count := 0));
    FedNone(t, t, h);
  }

  lemma MappedNext(t: Tree, h: seq<nat>, u: Tree, h': seq<nat>, v: Tree, h'': seq<nat>, r: Region, done: nat)
    requires MappedTo(t, h, u, h', r, done) && WellFormed(v)
    requires Overrides(u, v, r.(base := r.base + done, count := 1, frame := r.frame + done))
    requires Fed(u, v, h', h'') && Seats(v) == Seats(u) + Way(r.base + done, 0)
    ensures MappedTo(t, h, v, h'', r, done + 1)
  {
    hide WellFormed;
    hide Overrides;
    hide Fed;
    hide Seats;
    hide Way;
    OverridesNext(t, u, v, r.(count := done));
    FedTrans(t, u, v, h, h', h'');
  }

  /** All pages of the region are mapped, so the frames were enough. */
  lemma MappedAll(t: Tree, h: seq<nat>, t': Tree, h': seq<nat>, r: Region, done: nat)
    requires MappedTo(t, h, t', h', r, done)
    ensures |h| >= Lacking(t, r.base, done) && WellFormed(t) && WellFormed(t') && r.limit > 0
    ensures Overrides(t, t', r.(count := done)) && Fed(t, t', h, h') && Seats(t') == Seats(t) + Wanted(r.base, done)
  {
    hide WellFormed;
    hide Overrides;
    hide Fed;
    hide Seats;
    hide Wanted;
    FedEnough(t, t', h, h', r.base, done);
  }

  /** The tables on the way to pg were added to some from the top down to some level. */
  ghost predicate AddedTo(from: set<Seat>, to: set<Seat>, pg: nat) {
    exists level :: 0 <= level <= LEVEL_MAX && to == from + Way(pg, level)
  }

  ghost predicate Reached(t: Tree, t': Tree, pg: nat) {
    AddedTo(Seats(t), Seats(t'), pg)
  }

  lemma ReachedAt(t: Tree, t': Tree, pg: nat, level: nat)
    requires level <= LEVEL_MAX && Seats(t') == Seats(t) + Way(pg, level)
    ensures Reached(t, t', pg)
  {
    hide Seats;
    hide Way;
  }

  /** From t to t' all tables of done pages were added, and those on the way to the next page down to some level. */
  ghost predicate PartWay(t: Tree, t': Tree, base: nat, done: nat) {
    AddedTo(Seats(t) + Wanted(base, done), Seats(t'), base + done)
  }

  lemma LackingMore(t: Tree, base: nat, less: nat, more: nat)
    requires less <= more
    ensures Lacking(t, base, less) <= Lacking(t, base, more)
  {
    hide Seats;
    hide Wanted;
    WantedMore(base, less, more);
    NoMore(Wanted(base, less) - Seats(t), Wanted(base, more) - Seats(t));
  }

  /** Two mappers that ran out of frames on the same region stopped at the same page. */
  lemma SameStop(t: Tree, h: nat, base: nat, a: nat, b: nat)
    requires Lacking(t, base, a) <= h < Lacking(t, base, a + 1)
    requires Lacking(t, base, b) <= h < Lacking(t, base, b + 1)
    ensures a == b
  {
    hide Lacking;
    if a < b {
      LackingMore(t, base, a + 1, b);
    } else if b < a {
      LackingMore(t, base, b + 1, a);
    }
  }

  lemma SameCount<T>(a: set<T>, b: set<T>)
    requires a <= b && |a| == |b|
    ensures a == b
  {
    if x :| x in b && x !in a {
      Fewer(a, b, x);
    }
  }

  /** ... and with the same tables added. */
  lemma SameTables(t: Tree, u: Tree, v: Tree, h: seq<nat>, base: nat, done: nat)
    requires Fed(t, u, h, []) && Fed(t, v, h, []) && PartWay(t, u, base, done) && PartWay(t, v, base, done)
    ensures Seats(u) == Seats(v)
  {
    hide Seats;
    hide Wanted;
    hide Way;
    var i :| 0 <= i <= LEVEL_MAX && Seats(u) == Seats(t) + Wanted(base, done) + Way(base + done, i);
    var j :| 0 <= j <= LEVEL_MAX && Seats(v) == Seats(t) + Wanted(base, done) + Way(base + done, j);
    if i <= j {
      WayMore(base + done, j, i);
      SameCount(Seats(v) - Seats(t), Seats(u) - Seats(t));
    } else {
      WayMore(base + done, i, j);
      SameCount(Seats(u) - Seats(t), Seats(v) - Seats(t));
    }
    assert Seats(u) == Seats(t) + (Seats(u) - Seats(t));
    assert Seats(v) == Seats(t) + (Seats(v) - Seats(t));
  }

  /** The table of the next page cannot be made, so the frames were not enough. */
  lemma MappedNoMore(t: Tree, h: seq<nat>, u: Tree, h': seq<nat>, v: Tree, h'': seq<nat>, r: Region, done: nat,
                     count: nat)
    requires MappedTo(t, h, u, h', r, done) && done < count && WellFormed(v) && SameTranslation(u, v)
    requires Fed(u, v, h', h'') && h'' == [] && Seats(v) <= Seats(u) + Way(r.base + done, 0)
    requires Seats(v) != Seats(u) + Way(r.base + done, 0) && Reached(u, v, r.base + done)
    ensures Overrides(t, v, r.(count := done)) && Fed(t, v, h, h'') && |h| < Lacking(t, r.base, count)
    ensures Lacking(t, r.base, done) <= |h| < Lacking(t, r.base, done + 1) && PartWay(t, v, r.base, done)
  {
    hide WellFormed;
    hide Overrides;
    hide SameTranslation;
    hide Fed;
    hide Seats;
    hide Way;
    hide Lacking;
    OverridesSame(t, u, v, r.(count := done));
    FedTrans(t, u, v, h, h', h'');
    FedEnough(t, u, h, h', r.base, done);
    FedEnough(t, v, h, h'', r.base, done + 1);
    LackingMore(t, r.base, done + 1, count);
    var level :| 0 <= level <= LEVEL_MAX && Seats(v) == Seats(u) + Way(r.base + done, level);
    assert Seats(v) == Seats(t) + Wanted(r.base, done) + Way(r.base + done, level);
  }

  /** The result of mapping a region is determined by the region and the translation before it, however the tables were
      found or shared on the way. */
  lemma OverridesDetermine(t: Tree, u: Tree, v: Tree, r: Region)
    requires WellFormed(t) && WellFormed(u) && WellFormed(v) && r.limit > 0
    requires Overrides(t, u, r)
    ensures Overrides(t, v, r) <==> SameTranslation(u, v)
  {
    hide WellFormed;
    hide Translate;
    if Overrides(t, v, r) {
      forall pg | 0 <= pg < PAGES
        ensures Translate(v, pg) == Translate(u, pg)
      {
        assert Translate(u, pg) == if r.Holds(pg) then r.At(pg) else Translate(t, pg);
      }
    }
    if SameTranslation(u, v) {
      forall pg | 0 <= pg < PAGES
        ensures Translate(v, pg) == if r.Holds(pg) then r.At(pg) else Translate(t, pg)
      {
        assert Translate(v, pg) == Translate(u, pg);
      }
    }
  }

  lemma OverridesOne(t: Tree, u: Tree, v: Tree, pg: nat, frame: nat, limit: nat, perm: Perm)
    requires WellFormed(t) && WellFormed(u) && WellFormed(v) && limit > 0 && pg < PAGES
    requires SameTranslation(t, u)
    requires Translate(v, pg) == if perm.read then Some(Mapping(frame % limit * PAGESIZE, perm)) else None
    requires forall q :: 0 <= q < PAGES && q != pg ==> Translate(v, q) == Translate(u, q)
    ensures Overrides(t, v, Region(pg, 1, frame, limit, perm))
  {
    hide WellFormed;
  }

  lemma FewerOnly4K(t: Tree, more: nat, fewer: nat)
    requires WellFormed(t) && fewer <= more <= PAGES && Only4K(t, more)
    ensures Only4K(t, fewer)
  {
    hide WellFormed;
    hide Find;
  }

  lemma LevelOfLeaf(t: Tree, limit: nat, pg: nat)
    requires WellFormed(t) && pg < limit <= PAGES && Only4K(t, limit)
    ensures Find(t, pg).entry.Leaf? ==> Find(t, pg).level == 0
  {
    hide WellFormed;
    hide Find;
  }

  lemma LeafOfTranslation(t: Tree, pg: nat)
    requires WellFormed(t) && pg < PAGES
    ensures Translate(t, pg).Some? <==> Find(t, pg).entry.Leaf?
  {
    hide WellFormed;
    hide Find;
  }

  // Clearing a run of pages.

  /** t' is t without the translations of count pages from base on. */
  ghost predicate Cleared(t: Tree, t': Tree, base: nat, count: nat)
    requires WellFormed(t) && WellFormed(t')
  {
    forall pg :: 0 <= pg < PAGES ==> Translate(t', pg) == if base <= pg < base + count then None else Translate(t, pg)
  }

  lemma ClearedNext(t: Tree, u: Tree, v: Tree, base: nat, count: nat)
    requires WellFormed(t) && WellFormed(u) && WellFormed(v) && base + count < PAGES
    requires Cleared(t, u, base, count) && Translate(v, base + count) == None
    requires forall q :: 0 <= q < PAGES && q != base + count ==> Translate(v, q) == Translate(u, q)
    ensures Cleared(t, v, base, count + 1)
  {
    hide WellFormed;
    hide Translate;
  }

  lemma ClearedNone(t: Tree, base: nat)
    requires WellFormed(t)
    ensures Cleared(t, t, base, 0)
  {
    hide WellFormed;
    hide Translate;
  }

  ghost predicate AllMapped(t: Tree, base: nat, count: nat)
    requires WellFormed(t)
  {
    forall pg :: base <= pg < base + count && pg < PAGES ==> Translate(t, pg).Some?
  }

  /** A page still to be unmapped has its 4 KB entry. */
  lemma StillMapped(t: Tree, u: Tree, base: nat, count: nat, done: nat, limit: nat)
    requires WellFormed(t) && WellFormed(u) && limit <= PAGES && Only4K(u, limit)
    requires done < count && base + count <= limit
    requires AllMapped(t, base, count) && Cleared(t, u, base, done)
    ensures Find(u, base + done).level == 0 && Find(u, base + done).entry.Leaf?
  {
    hide WellFormed;
    hide Find;
    assert Translate(u, base + done).Some?;
    LeafOfTranslation(u, base + done);
    LevelOfLeaf(u, limit, base + done);
  }

  // Looking an address up.

  /** The result of vm_lookup: what va translates to and how many bytes from va on the entry covers. */
  datatype VmMap = VmMap(valid: bool, pa: nat, perm: Perm, size: nat)

  /** lvl2size */
  function LevelSize(level: nat): nat
    requires level <= LEVEL_MAX
  {
    match level
    case 0 => 0x1000
    case 1 => 0x20_0000
    case 2 => 0x4000_0000
    case _ => 0x80_0000_0000
  }

  ghost function Lookup(t: Tree, va: nat): VmMap
    requires WellFormed(t)
  {
    var h := Find(t, Page(va));
    if h.entry.Leaf? then
      var size := LevelSize(h.level);
      VmMap(true, h.entry.pa + va % size, h.entry.perm, size - va % size)
    else
      VmMap(false, 0, NONE, 0)
  }

  lemma LowIsRemainder(pg: nat)
    ensures Low(pg, 0) == 0 && Low(pg, 1) == pg % 512
    ensures Low(pg, 2) == pg % 0x4_0000
    ensures Low(pg, 3) == pg % 0x800_0000
  {
    var a, b, c := pg / 512 / 512 / 512, pg / 512 / 512 % 512, pg / 512 % 512;
    DivModUnique(pg, 0x4_0000, 512 * a + b, 512 * c + pg % 512);
    DivModUnique(pg, 0x800_0000, a, 512 * (512 * b + c) + pg % 512);
    assert Low(pg, 1) == 512 * Low(pg / 512, 0) + pg % 512;
    assert Low(pg / 512, 1) == 512 * Low(pg / 512 / 512, 0) + pg / 512 % 512;
    assert Low(pg / 512 / 512, 1) == 512 * Low(pg / 512 / 512 / 512, 0) + pg / 512 / 512 % 512;
    assert Low(pg, 2) == 512 * Low(pg / 512, 1) + pg % 512;
    assert Low(pg / 512, 2) == 512 * Low(pg / 512 / 512, 1) + pg / 512 % 512;
    assert Low(pg, 3) == 512 * Low(pg / 512, 2) + pg % 512;
  }

  lemma RemainderOfRemainder(q: nat)
    ensures q % PAGES % 512 == q % 512
    ensures q % PAGES % 0x4_0000 == q % 0x4_0000
    ensures q % PAGES % 0x800_0000 == q % 0x800_0000
  {
    var a, r := q / PAGES, q % PAGES;
    DivModUnique(q, 512, 0x800_0000 * a + r / 512, r % 512);
    DivModUnique(q, 0x4_0000, 0x4_0000 * a + r / 0x4_0000, r % 0x4_0000);
    DivModUnique(q, 0x800_0000, 512 * a + r / 0x800_0000, r % 0x800_0000);
  }

  /** The offset of va in an entry of a level is the offset of its page there and its offset in that page. */
  lemma OffsetInLevel(va: nat, level: nat)
    requires level <= LEVEL_MAX
    ensures va % LevelSize(level) == PAGESIZE * Low(Page(va), level) + va % PAGESIZE
  {
    var q, o := va / PAGESIZE, va % PAGESIZE;
    LowIsRemainder(Page(va));
    RemainderOfRemainder(q);
    match level
    case 0 =>
    case 1 => DivModUnique(va, 0x20_0000, q / 512, PAGESIZE * (q % 512) + o);
    case 2 => DivModUnique(va, 0x4000_0000, q / 0x4_0000, PAGESIZE * (q % 0x4_0000) + o);
    case _ => DivModUnique(va, 0x80_0000_0000, q / 0x800_0000, PAGESIZE * (q % 0x800_0000) + o);
  }

  /** A lookup gives what the flat translation gives for the page of va, plus the offset of va in its page. */
  lemma LookupIsTranslation(t: Tree, va: nat)
    requires WellFormed(t)
    ensures var m, f := Lookup(t, va), Translate(t, Page(va));
            && m.valid == f.Some?
            && (m.valid ==> m.pa == f.value.pa + va % PAGESIZE && m.perm == f.value.perm && m.size > 0)
            && (m.valid && Find(t, Page(va)).level == 0 ==> m.size == PAGESIZE - va % PAGESIZE)
  {
    hide WellFormed;
    OffsetInLevel(va, Find(t, Page(va)).level);
  }

  /** A node on the way to pg is reached by every descent to pg. */
  lemma {:induction false} FindThrough(t: Tree, n: nat, pg: nat)
    requires WellFormed(t) && pg < PAGES && OnPath(t, n, pg)
    ensures Find(t, pg) == Descend(t, n, pg)
    decreases LEVEL_MAX - t.place[n].level
  {
    hide WellFormed;
    LevelBound(t, n);
    if n != t.root {
      UpFrom(t, n);
      var p := t.place[n].parent;
      UpStep(pg, t.place[n].level + 1);
      LinkOnPath(t, p, pg);
      FindThrough(t, p, pg);
    }
  }

  // Pages under one entry.

  lemma {:induction false} UpMore(pg: nat, q: nat, l: nat, k: nat)
    requires Up(pg, l) == Up(q, l) && l <= k
    ensures Up(pg, k) == Up(q, k)
    decreases k
  {
    if l < k {
      UpMore(pg, q, l, k - 1);
      UpStep(pg, k - 1);
      UpStep(q, k - 1);
    }
  }

  /** Pages that agree above the level at which a descent stops stop at the same entry. */
  lemma {:induction false} SameHit(t: Tree, n: nat, pg: nat, q: nat)
    requires WellFormed(t) && OnPath(t, n, pg)
    requires Up(q, Descend(t, n, pg).level) == Up(pg, Descend(t, n, pg).level)
    ensures OnPath(t, n, q) && Descend(t, n, q) == Descend(t, n, pg)
    decreases t.place[n].level
  {
    hide WellFormed;
    var h, level := Descend(t, n, pg), t.place[n].level;
    UpMore(pg, q, h.level, level);
    UpMore(pg, q, h.level, level + 1);
    NodeSize(t, n);
    var e := t.nodes[n][Slot(pg, level)];
    if e.Link? {
      LinkOnPath(t, n, pg);
      SameHit(t, e.child, pg, q);
    }
  }

  lemma UpIsQuotient(pg: nat)
    ensures Up(pg, 0) == pg && Up(pg, 1) == pg / 512
    ensures Up(pg, 2) == pg / 0x4_0000
    ensures Up(pg, 3) == pg / 0x800_0000
  {
    UpStep(pg, 0);
    UpStep(pg, 1);
    UpStep(pg, 2);
  }

  /** How many entries of a level cover the whole address space. */
  function LevelCount(level: nat): nat
    requires level <= LEVEL_MAX
  {
    match level
    case 0 => 0x10_0000_0000
    case 1 => 0x800_0000
    case 2 => 0x4_0000
    case _ => 0x200
  }

  /** The entries of a level are numbered by va over the size of the level. */
  lemma EntryNumber(va: nat, level: nat)
    requires level <= LEVEL_MAX
    ensures Up(Page(va), level) == va / LevelSize(level) % LevelCount(level)
  {
    var q := va / PAGESIZE;
    var a, r, o := q / PAGES, q % PAGES, va % PAGESIZE;
    UpIsQuotient(r);
    match level
    case 0 =>
    case 1 =>
      DivModUnique(va, 0x20_0000, 0x800_0000 * a + r / 512, PAGESIZE * (r % 512) + o);
      DivModUnique(va / 0x20_0000, 0x800_0000, a, r / 512);
    case 2 =>
      DivModUnique(va, 0x4000_0000, 0x4_0000 * a + r / 0x4_0000, PAGESIZE * (r % 0x4_0000) + o);
      DivModUnique(va / 0x4000_0000, 0x4_0000, a, r / 0x4_0000);
    case _ =>
      DivModUnique(va, 0x80_0000_0000, 0x200 * a + r / 0x800_0000, PAGESIZE * (r % 0x800_0000) + o);
      DivModUnique(va / 0x80_0000_0000, 0x200, a, r / 0x800_0000);
  }

  /** The slot of an address at a level is nine bits of the address. */
  lemma SlotOfAddress(va: nat, level: nat)
    requires level <= LEVEL_MAX
    ensures Slot(Page(va), level) == va / LevelSize(level) % FANOUT
  {
    EntryNumber(va, level);
    var e := va / LevelSize(level);
    var r := e % LevelCount(level);
    match level
    case 0 => DivModUnique(e, 512, 0x800_0000 * (e / 0x10_0000_0000) + r / 512, r % 512);
    case 1 => DivModUnique(e, 512, 0x4_0000 * (e / 0x800_0000) + r / 512, r % 512);
    case 2 => DivModUnique(e, 512, 512 * (e / 0x4_0000) + r / 512, r % 512);
    case _ =>
  }

  /** Every address inside the entry that translates va stops at that entry. */
  lemma SameEntry(t: Tree, va: nat, w: nat)
    requires WellFormed(t)
    requires var size := LevelSize(Find(t, Page(va)).level); w / size == va / size
    ensures Find(t, Page(w)) == Find(t, Page(va))
  {
    hide WellFormed;
    var level := Find(t, Page(va)).level;
    EntryNumber(va, level);
    EntryNumber(w, level);
    RootOnPath(t, Page(va));
    SameHit(t, t.root, Page(va), Page(w));
  }

  /** The bytes that a lookup says it covers are translated contiguously. */
  lemma LookupContiguous(t: Tree, va: nat, j: nat)
    requires WellFormed(t) && Lookup(t, va).valid && j < Lookup(t, va).size
    ensures var m := Lookup(t, va);
            Lookup(t, va + j) == VmMap(true, m.pa + j, m.perm, m.size - j)
  {
    hide WellFormed;
    var level := Find(t, Page(va)).level;
    var size := LevelSize(level);
    DivModUnique(va + j, size, va / size, va % size + j);
    SameEntry(t, va, va + j);
  }

  /** What lookups give after a region was mapped: in its pages the frames of the region in order, with its permissions,
      or nothing if those do not include reading; elsewhere what they gave before. */
  lemma RegionLookup(t: Tree, t': Tree, r: Region, limit: nat, va: nat)
    requires WellFormed(t) && WellFormed(t') && r.limit > 0 && Overrides(t, t', r) && limit <= PAGES && Only4K(t', limit)
    requires va < limit * PAGESIZE && r.frame + r.count <= r.limit
    ensures var pg, m, m' := va / PAGESIZE, Lookup(t, va), Lookup(t', va);
            if r.base <= pg < r.base + r.count then
              m' == if r.perm.read
                    then VmMap(true, PAGESIZE * (r.frame + (pg - r.base)) + va % PAGESIZE, r.perm, PAGESIZE - va % PAGESIZE)
                    else VmMap(false, 0, NONE, 0)
            else m'.valid == m.valid && (m.valid ==> m'.pa == m.pa && m'.perm == m.perm)
  {
    hide WellFormed;
    hide Only4K;
    hide Lookup;
    hide Find;
    hide Translate;
    var pg := va / PAGESIZE;
    assert Page(va) == pg;
    LookupIsTranslation(t, va);
    LookupIsTranslation(t', va);
    NotTranslated(t', va);
    LevelOfLeaf(t', limit, pg);
    LeafOfTranslation(t', pg);
    assert Translate(t', pg) == if r.Holds(pg) then r.At(pg) else Translate(t, pg);
    if r.Holds(pg) {
      var f := r.frame + (pg - r.base);
      DivModUnique(f, r.limit, 0, f);
    }
  }

  lemma NotTranslated(t: Tree, va: nat)
    requires WellFormed(t)
    ensures Translate(t, Page(va)).None? ==> Lookup(t, va) == VmMap(false, 0, NONE, 0)
  {
    hide WellFormed;
    hide Find;
  }

  // Runs of operations against a flat map from pages to frames.

  datatype Op = MapOp(region: Region) | ClearOp(page: nat)
  {
    predicate Valid() { MapOp? ==> region.limit > 0 }

    /** The tables that the operation needs. */
    ghost function Tables(): set<Seat> {
      if MapOp? then Wanted(region.base, region.count) else {}
    }
  }

  /** What an operation does to a translation. */
  ghost predicate OpDone(t: Tree, t': Tree, op: Op)
    requires WellFormed(t) && WellFormed(t') && op.Valid()
  {
    match op
    case MapOp(r) => Overrides(t, t', r)
    case ClearOp(pg) =>
      && pg < PAGES && Translate(t', pg) == None
      && (forall q :: 0 <= q < PAGES && q != pg ==> Translate(t', q) == Translate(t, q))
  }

  /** The same operation on a flat map. */
  ghost function Flat(f: map<nat, Mapping>, op: Op): map<nat, Mapping>
    requires op.Valid()
  {
    match op
    case MapOp(r) =>
      var pages := r.Pages();
      if r.perm.read then f + (map pg | pg in pages :: r.At(pg).value) else f - pages
    case ClearOp(pg) => f - {pg}
  }

  ghost predicate AllValid(ops: seq<Op>) {
    forall i :: 0 <= i < |ops| ==> ops[i].Valid()
  }

  /** The flat map that a run of operations describes. */
  ghost function FlatRun(ops: seq<Op>): map<nat, Mapping>
    requires AllValid(ops)
  {
    if ops == [] then map[] else Flat(FlatRun(ops[..|ops| - 1]), ops[|ops| - 1])
  }

  /** The tables that a run of operations needs. */
  ghost function RunTables(ops: seq<Op>): set<Seat> {
    if ops == [] then {} else RunTables(ops[..|ops| - 1]) + ops[|ops| - 1].Tables()
  }

  ghost function Get(f: map<nat, Mapping>, pg: nat): Option<Mapping> {
    if pg in f then Some(f[pg]) else None
  }

  /** Every page translates as the flat map has it. */
  ghost predicate Agrees(t: Tree, f: map<nat, Mapping>) {
    WellFormed(t) && forall pg :: 0 <= pg < PAGES ==> Translate(t, pg) == Get(f, pg)
  }

  lemma FlatStep(t: Tree, t': Tree, op: Op, f: map<nat, Mapping>)
    requires WellFormed(t') && op.Valid() && Agrees(t, f) && OpDone(t, t', op)
    ensures Agrees(t', Flat(f, op))
  {
    hide WellFormed;
    hide Translate;
    forall pg | 0 <= pg < PAGES
      ensures Translate(t', pg) == Get(Flat(f, op), pg)
    {
      assert Translate(t, pg) == Get(f, pg);
      match op
      case MapOp(r) =>
        assert Translate(t', pg) == if r.Holds(pg) then r.At(pg) else Translate(t, pg);
        assert pg in r.Pages() <==> r.Holds(pg);
      case ClearOp(_) =>
    }
  }

  /** In a run, the last operation on a page decides what it translates to ... */
  lemma {:induction false} LastOp(ops: seq<Op>, i: nat, pg: nat)
    requires AllValid(ops) && i < |ops|
    requires match ops[i] case MapOp(r) => r.base <= pg < r.base + r.count case ClearOp(q) => q == pg
    requires forall j :: i < j < |ops| ==>
               match ops[j] case MapOp(r) => !(r.base <= pg < r.base + r.count) case ClearOp(q) => q != pg
    ensures Get(FlatRun(ops), pg)
            == match ops[i]
               case MapOp(r) =>
                 if r.perm.read then Some(Mapping((r.frame + (pg - r.base)) % r.limit * PAGESIZE, r.perm)) else None
               case ClearOp(_) => None
  {
    var k := |ops| - 1;
    FlatAt(FlatRun(ops[..k]), ops[k], pg);
    hide Flat;
    if i < k {
      LastOp(ops[..k], i, pg);
    }
  }

  /** ... and a page that no operation was on is not mapped. */
  lemma {:induction false} NoOp(ops: seq<Op>, pg: nat)
    requires AllValid(ops)
    requires forall j :: 0 <= j < |ops| ==>
               match ops[j] case MapOp(r) => !(r.base <= pg < r.base + r.count) case ClearOp(q) => q != pg
    ensures Get(FlatRun(ops), pg) == None
  {
    if ops != [] {
      var k := |ops| - 1;
      FlatAt(FlatRun(ops[..k]), ops[k], pg);
      hide Flat;
      NoOp(ops[..k], pg);
    }
  }

  lemma FlatAt(f: map<nat, Mapping>, op: Op, pg: nat)
    requires op.Valid()
    ensures Get(Flat(f, op), pg)
            == match op
               case MapOp(r) =>
                 if !(r.base <= pg < r.base + r.count) then Get(f, pg)
                 else if r.perm.read then Some(Mapping((r.frame + (pg - r.base)) % r.limit * PAGESIZE, r.perm)) else None
               case ClearOp(q) => if q == pg then None else Get(f, pg)
  {
    match op
    case MapOp(r) => assert pg in r.Pages() <==> r.Holds(pg);
    case ClearOp(_) =>
  }

  /** What a lookup of va gives in a flat map of 4 KB pages. */
  ghost function FlatLookup(f: map<nat, Mapping>, va: nat): VmMap {
    match Get(f, Page(va))
    case Some(m) => VmMap(true, m.pa + va % PAGESIZE, m.perm, PAGESIZE - va % PAGESIZE)
    case None => VmMap(false, 0, NONE, 0)
  }

  lemma LookupAgrees(t: Tree, f: map<nat, Mapping>, va: nat)
    requires Agrees(t, f) && Only4K(t, PAGES)
    ensures Lookup(t, va) == FlatLookup(f, va)
  {
    hide WellFormed;
    hide Find;
    assert Translate(t, Page(va)) == Get(f, Page(va));
    LookupIsTranslation(t, va);
    LevelOfLeaf(t, PAGES, Page(va));
  }

  lemma RunNext(ops: seq<Op>, i: nat)
    requires AllValid(ops) && i < |ops|
    ensures AllValid(ops[..i]) && AllValid(ops[..i + 1])
    ensures FlatRun(ops[..i + 1]) == Flat(FlatRun(ops[..i]), ops[i])
    ensures RunTables(ops[..i + 1]) == RunTables(ops[..i]) + ops[i].Tables()
  {
    hide Flat;
    assert ops[..i + 1][..i] == ops[..i];
  }

  lemma {:induction false} RunTablesMore(ops: seq<Op>, i: nat)
    requires i <= |ops|
    ensures RunTables(ops[..i]) <= RunTables(ops)
    decreases |ops| - i
  {
    hide Wanted;
    if i < |ops| {
      assert ops[..i + 1][..i] == ops[..i];
      RunTablesMore(ops, i + 1);
    } else {
      assert ops[..i] == ops;
    }
  }

  lemma {:induction false} WayLow(pg: nat, level: nat, s: Seat)
    requires s in Way(pg, level)
    ensures s.level < LEVEL_MAX
    decreases LEVEL_MAX - level
  {
    if s in Way(pg, level + 1) {
      WayLow(pg, level + 1, s);
    }
  }

  lemma {:induction false} WantedLow(base: nat, count: nat, s: Seat)
    requires s in Wanted(base, count)
    ensures s.level < LEVEL_MAX
  {
    hide Way;
    if s in Wanted(base, count - 1) {
      WantedLow(base, count - 1, s);
    } else {
      WayLow(base + count - 1, 0, s);
    }
  }

  /** The root is not among the tables that a run needs. */
  lemma {:induction false} RunTablesLow(ops: seq<Op>, s: Seat)
    requires s in RunTables(ops)
    ensures s.level < LEVEL_MAX
  {
    hide Wanted;
    if s in RunTables(ops[..|ops| - 1]) {
      RunTablesLow(ops[..|ops| - 1], s);
    } else {
      var r := ops[|ops| - 1].region;
      WantedLow(r.base, r.count, s);
    }
  }

  /** A run that got all its tables had frames enough. */
  lemma RunFed(t: Tree, t': Tree, h: seq<nat>, h': seq<nat>, tables: set<Seat>)
    requires Fed(t, t', h, h') && Seats(t') == Seats(t) + tables
    ensures |h| >= |tables - Seats(t)|
  {
    hide Seats;
    assert Seats(t') - Seats(t) == tables - Seats(t);
  }

  /** A run that stops at an operation which lacks tables had not. */
  lemma RunStarves(t: Tree, t': Tree, h: seq<nat>, h': seq<nat>, before: set<Seat>, next: set<Seat>, all: set<Seat>)
    requires Fed(t, t', h, h') && Seats(t') == Seats(t) + before && |h'| < |next - Seats(t')|
    requires before + next <= all
    ensures |h| < |all - Seats(t)|
  {
    hide Seats;
    var got, lack := Seats(t') - Seats(t), next - Seats(t');
    assert |got + lack| == |got| + |lack|;
    NoMore(got + lack, all - Seats(t));
  }

  // Subtrees.

  /** m lies in the subtree below n. */
  ghost predicate Under(t: Tree, m: nat, n: nat) {
    && m in t.place && n in t.place
    && t.place[m].level < t.place[n].level
    && Up(t.place[m].prefix, t.place[n].level - t.place[m].level) == t.place[n].prefix
  }

  /** The slot of n through which m is reached. */
  ghost function SlotToward(t: Tree, n: nat, m: nat): (s: nat)
    requires Under(t, m, n)
    ensures s < FANOUT
  {
    Up(t.place[m].prefix, t.place[n].level - t.place[m].level - 1) % FANOUT
  }

  /** Whatever is below n is a child of n or below a child of n, through the slot its prefix names. */
  lemma {:induction false} UnderVia(t: Tree, n: nat, m: nat)
    requires WellFormed(t) && n in t.nodes && m in t.nodes && Under(t, m, n)
    ensures |t.nodes[n]| == FANOUT
    ensures var e := t.nodes[n][SlotToward(t, n, m)];
            e.Link? && e.child in t.nodes && (m == e.child || Under(t, m, e.child))
    decreases t.place[n].level - t.place[m].level
  {
    hide WellFormed;
    LevelBound(t, n);
    NodeSize(t, n);
    RootLevel(t);
    UpFrom(t, m);
    DownFrom(t, n);
    var p := t.place[m].parent;
    var d := t.place[n].level - t.place[m].level;
    if d == 1 {
      UpStep(t.place[m].prefix, 0);
      PlaceInjective(t, p, n);
    } else {
      assert Up(t.place[p].prefix, d - 1) == Up(t.place[m].prefix, d);
      UnderVia(t, n, p);
      assert SlotToward(t, n, p) == SlotToward(t, n, m);
      UnderParent(t, m, t.nodes[n][SlotToward(t, n, m)].child);
    }
  }

  lemma UnderParent(t: Tree, m: nat, c: nat)
    requires WellFormed(t) && m in t.nodes && m in t.place && m != t.root && c in t.nodes
    requires t.place[m].parent == c || Under(t, t.place[m].parent, c)
    ensures Under(t, m, c)
  {
    hide WellFormed;
    UpFrom(t, m);
    NodeSize(t, c);
    var p := t.place[m];
    UpStep(p.prefix, 0);
    var d := t.place[c].level - p.level;
    assert Up(p.prefix, d) == Up(p.prefix / FANOUT, d - 1);
  }

  lemma ChildPlace(t: Tree, n: nat, i: nat)
    requires WellFormed(t) && n in t.nodes && i < FANOUT
    ensures n in t.place && |t.nodes[n]| == FANOUT
    ensures t.nodes[n][i].Link? ==>
              && t.nodes[n][i].child in t.place && t.nodes[n][i].child in t.nodes && t.place[n].level > 0
              && t.place[t.nodes[n][i].child] == Place(t.place[n].level - 1, t.place[n].prefix * FANOUT + i, n)
  {
    hide WellFormed;
    DownFrom(t, n);
    NodeSize(t, n);
  }

  /** Conversely, a child and all below it are below n, through the child's slot. */
  lemma ChildUnder(t: Tree, n: nat, i: nat, m: nat)
    requires WellFormed(t) && n in t.nodes && i < FANOUT && |t.nodes[n]| == FANOUT && t.nodes[n][i].Link?
    requires m in t.nodes && (m == t.nodes[n][i].child || Under(t, m, t.nodes[n][i].child))
    ensures Under(t, m, n) && SlotToward(t, n, m) == i
  {
    hide WellFormed;
    hide Up;
    ChildPlace(t, n, i);
    NodeSize(t, m);
    var q, d := t.place[m].prefix, t.place[n].level - t.place[m].level;
    UpNone(q);
    UpOver(q, d, t.place[n].prefix, i);
  }

  lemma UpNone(q: nat)
    ensures Up(q, 0) == q
  {
  }

  lemma UpOver(q: nat, d: nat, p: nat, i: nat)
    requires d >= 1 && i < FANOUT && Up(q, d - 1) == p * FANOUT + i
    ensures Up(q, d) == p && Up(q, d - 1) % FANOUT == i
  {
    UpStep(q, d - 1);
    hide Up;
    DivModUnique(Up(q, d - 1), FANOUT, p, i);
  }

  /** Every node but the root is below the root. */
  lemma {:induction false} AllUnderRoot(t: Tree, m: nat)
    requires WellFormed(t) && m in t.nodes && m in t.place && m != t.root
    ensures Under(t, m, t.root)
    decreases LEVEL_MAX - t.place[m].level
  {
    hide WellFormed;
    LevelBound(t, m);
    RootLevel(t);
    UpFrom(t, m);
    var p := t.place[m].parent;
    if p != t.root {
      AllUnderRoot(t, p);
    }
    UnderParent(t, m, t.root);
  }
}
