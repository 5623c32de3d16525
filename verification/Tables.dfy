/** Page tables in memory as a tree, for any entry format: what rekernel/arch/arm64/vm.d and rekernel/arch/amd64/vm.d
    have in common.  dec says what an entry means at a level. */
module Tables {
  import opened Base
  import opened PageTree

  datatype Loc = Loc(node: nat, slot: nat)

  ghost function Decoded<P>(dec: (P, nat) -> Entry, table: seq<P>, level: nat): (n: Node)
    ensures |n| == |table| && forall i :: 0 <= i < |table| ==> n[i] == dec(table[i], level)
  {
    seq(|table|, i requires 0 <= i < |table| => dec(table[i], level))
  }

  ghost function TreeOf<P>(dec: (P, nat) -> Entry, root: nat, mem: map<nat, seq<P>>, place: map<nat, Place>): (t: Tree)
    requires mem.Keys == place.Keys
    ensures t.root == root && t.nodes.Keys == mem.Keys && t.place == place
  {
    Tree(root, map n | n in mem :: Decoded(dec, mem[n], place[n].level), place)
  }

  lemma EntryAt<P>(dec: (P, nat) -> Entry, root: nat, mem: map<nat, seq<P>>, place: map<nat, Place>, n: nat, slot: nat)
    requires mem.Keys == place.Keys && WellFormed(TreeOf(dec, root, mem, place)) && n in mem && slot < FANOUT
    ensures var t := TreeOf(dec, root, mem, place);
            |mem[n]| == |t.nodes[n]| == FANOUT && t.nodes[n][slot] == dec(mem[n][slot], place[n].level)
  {
    hide WellFormed;
    NodeSize(TreeOf(dec, root, mem, place), n);
  }

  lemma TreeWritten<P>(dec: (P, nat) -> Entry, root: nat, mem: map<nat, seq<P>>, place: map<nat, Place>,
                       n: nat, slot: nat, p: P)
    requires mem.Keys == place.Keys && n in mem && slot < |mem[n]|
    ensures TreeOf(dec, root, mem[n := mem[n][slot := p]], place)
            == Written(TreeOf(dec, root, mem, place), n, slot, dec(p, place[n].level))
  {
    var level := place[n].level;
    assert Decoded(dec, mem[n][slot := p], level) == Decoded(dec, mem[n], level)[slot := dec(p, level)];
    assert TreeOf(dec, root, mem[n := mem[n][slot := p]], place).nodes
        == TreeOf(dec, root, mem, place).nodes[n := Decoded(dec, mem[n][slot := p], level)];
  }

  /** Linking a table of holes is growing the tree. */
  lemma TreeGrown<P>(dec: (P, nat) -> Entry, root: nat, mem: map<nat, seq<P>>, place: map<nat, Place>,
                     n: nat, slot: nat, c: nat, link: P, zeros: seq<P>)
    requires mem.Keys == place.Keys && n in mem && slot < |mem[n]| && place[n].level > 0 && c !in mem
    requires dec(link, place[n].level) == Link(c)
    requires forall level :: Decoded(dec, zeros, level) == EmptyNode()
    ensures var g := Grown(TreeOf(dec, root, mem, place), n, slot, c);
            TreeOf(dec, root, mem[n := mem[n][slot := link]][c := zeros], g.place) == g
  {
    var g := Grown(TreeOf(dec, root, mem, place), n, slot, c);
    TreeWritten(dec, root, mem, place, n, slot, link);
    var w := mem[n := mem[n][slot := link]];
    hide Decoded;
    assert TreeOf(dec, root, w[c := zeros], g.place).nodes
        == TreeOf(dec, root, w, place).nodes[c := Decoded(dec, zeros, g.place[c].level)];
  }

  /** Storing the 4 KB entry of a page. */
  lemma TreeStored<P>(dec: (P, nat) -> Entry, root: nat, mem: map<nat, seq<P>>, place: map<nat, Place>,
                      l: Loc, pte: P, pg: nat)
    requires mem.Keys == place.Keys && WellFormed(TreeOf(dec, root, mem, place)) && pg < PAGES
    requires var h := Find(TreeOf(dec, root, mem, place), pg); l == Loc(h.node, h.slot) && h.level == 0
    requires !dec(pte, 0).Link?
    ensures l.node in mem && l.slot < |mem[l.node]|
    ensures var mem' := mem[l.node := mem[l.node][l.slot := pte]];
            var t, t', e := TreeOf(dec, root, mem, place), TreeOf(dec, root, mem', place), dec(pte, 0);
            && WellFormed(t') && Find(t', pg).level == 0
            && Translate(t', pg) == (if e.Leaf? then Some(Mapping(e.pa, e.perm)) else None)
            && (forall q :: 0 <= q < PAGES && q != pg ==> Find(t', q) == Find(t, q))
            && (forall q :: 0 <= q < PAGES && q != pg ==> Translate(t', q) == Translate(t, q))
            && (forall limit :: 0 <= limit <= PAGES && Only4K(t, limit) ==> Only4K(t', limit))
            && Seats(t') == Seats(t)
  {
    hide WellFormed;
    hide Only4K;
    hide Translate;
    hide Find;
    hide Seats;
    var t := TreeOf(dec, root, mem, place);
    EntryAt(dec, root, mem, place, l.node, l.slot);
    TreeWritten(dec, root, mem, place, l.node, l.slot, pte);
    WrittenTranslates(t, l.node, pg, dec(pte, 0));
  }

  /** Memory with one entry changed. */
  function Put<P>(mem: map<nat, seq<P>>, l: Loc, pte: P): (mem': map<nat, seq<P>>)
    requires l.node in mem && l.slot < |mem[l.node]|
    ensures mem'.Keys == mem.Keys && mem'[l.node] == mem[l.node][l.slot := pte]
    ensures mem' == mem[l.node := mem'[l.node]]
  {
    mem[l.node := mem[l.node][l.slot := pte]]
  }

  /** The frames an allocator will return: page aligned, below the limit of the entry format, new and distinct. */
  ghost predicate FreshFrames<P>(heap: seq<nat>, mem: map<nat, seq<P>>, limit: nat) {
    && (forall i :: 0 <= i < |heap| ==> heap[i] % PAGESIZE == 0 && heap[i] / PAGESIZE < limit && heap[i] !in mem)
    && (forall i, j :: 0 <= i < j < |heap| ==> heap[i] != heap[j])
  }

  lemma FreshFirst<P>(heap: seq<nat>, mem: map<nat, seq<P>>, limit: nat)
    requires FreshFrames(heap, mem, limit) && heap != []
    ensures heap[0] % PAGESIZE == 0 && heap[0] / PAGESIZE < limit && heap[0] !in mem
  {
  }

  lemma FreshFewer<P>(heap: seq<nat>, mem: map<nat, seq<P>>, fewer: map<nat, seq<P>>, limit: nat)
    requires FreshFrames(heap, mem, limit) && fewer.Keys <= mem.Keys
    ensures FreshFrames(heap, fewer, limit)
  {
  }

  /** After the first frame became a table. */
  lemma FreshRest<P>(heap: seq<nat>, mem: map<nat, seq<P>>, mem': map<nat, seq<P>>, limit: nat)
    requires FreshFrames(heap, mem, limit) && heap != [] && mem'.Keys == mem.Keys + {heap[0]}
    ensures FreshFrames(heap[1..], mem', limit)
  {
  }
}
