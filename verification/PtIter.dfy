/** PtIter of rekernel/vm.d: a cursor that visits the valid 4 KB user mappings in ascending order.
    The one iterator is compiled against either page-table format; they differ in where a walk stops. */
module PtIter {
  import opened Base
  import opened PageTree
  import Arm64Vm
  import Amd64Vm
  import opened Spaces

  /** va lies in a valid 4 KB page. */
  ghost predicate Mapped(t: Tree, va: nat) {
    WellFormed(t) && Find(t, Page(va)).level == 0 && Find(t, Page(va)).entry.Leaf?
  }

  /** Where every user mapping is a 4 KB one, the mapped addresses are the translated ones. */
  lemma MappedIsTranslated(t: Tree, limit: nat, va: nat)
    requires WellFormed(t) && limit <= PAGES && Only4K(t, limit) && va < limit * PAGESIZE
    ensures Mapped(t, va) <==> Translate(t, Page(va)).Some?
  {
    hide WellFormed;
    hide Find;
    assert va / PAGESIZE < limit;
    LevelOfLeaf(t, limit, Page(va));
  }

  /** The cursor also looks at USER_END itself.  On arm64 that address has the indices of address 0, so a
      mapping is yielded a second time, with the address USER_END, exactly when page zero is mapped. */
  lemma Arm64End(t: Tree)
    requires WellFormed(t)
    ensures Mapped(t, Arm64Vm.USER_END) <==> Mapped(t, 0)
  {
    hide WellFormed;
    hide Find;
    assert Page(Arm64Vm.USER_END) == Page(0) == 0;
  }

  /** On amd64 it is the first kernel page, which is part of a large page. */
  lemma Amd64End(t: Tree)
    requires WellFormed(t) && Amd64Vm.LargeAtUserEnd(t)
    ensures !Mapped(t, Amd64Vm.USER_END)
  {
    hide WellFormed;
    hide Find;
    assert Page(Amd64Vm.USER_END) == Amd64Vm.USER_PAGES;
  }

  /** The cursor stands at the start of any entry that it would move past. */
  ghost predicate AtStart(arm: bool, t: Tree, va: nat) {
    && WellFormed(t) && va % PAGESIZE == 0
    && (Jumps(arm, Find(t, Page(va))) ==> va % LevelSize(Find(t, Page(va)).level) == 0)
  }

  ghost function Step(arm: bool, t: Tree, va: nat): (d: nat)
    requires WellFormed(t)
    ensures d > 0
  {
    var h := Find(t, Page(va));
    if Jumps(arm, h) then LevelSize(h.level) else PAGESIZE
  }

  lemma NextEntryNumber(va: nat, level: nat)
    requires level <= LEVEL_MAX && va % LevelSize(level) == 0
    ensures Up(Page(va + LevelSize(level)), level) != Up(Page(va), level)
  {
    hide Up;
    var size, w := LevelSize(level), va + LevelSize(level);
    EntryNumber(va, level);
    EntryNumber(w, level);
    DivModUnique(w, size, va / size + 1, 0);
    NextRemainder(va / size, LevelCount(level));
  }

  lemma NextRemainder(e: nat, n: nat)
    requires n > 1
    ensures (e + 1) % n != e % n
  {
    if e % n + 1 < n {
      DivModUnique(e + 1, n, e / n, e % n + 1);
    } else {
      DivModUnique(e + 1, n, e / n + 1, 0);
    }
  }

  /** One entry of a level ends where the next one starts. */
  lemma NextEntryDiffers(t: Tree, va: nat)
    requires WellFormed(t) && va % LevelSize(Find(t, Page(va)).level) == 0
    ensures Find(t, Page(va + LevelSize(Find(t, Page(va)).level))) != Find(t, Page(va))
  {
    hide WellFormed;
    hide Up;
    var h := Find(t, Page(va));
    var w := va + LevelSize(h.level);
    NextEntryNumber(va, h.level);
    UpStep(Page(va), h.level);
    UpStep(Page(w), h.level);
  }

  lemma StartAtZero(arm: bool, t: Tree)
    requires WellFormed(t)
    ensures AtStart(arm, t, 0)
  {
    hide WellFormed;
    hide Find;
    assert forall level :: 0 <= level <= LEVEL_MAX ==> 0 % LevelSize(level) == 0;
  }

  /** No page strictly between two cursor positions is mapped. */
  lemma NothingSkipped(arm: bool, t: Tree, va: nat, w: nat)
    requires WellFormed(t) && AtStart(arm, t, va)
    requires va <= w < va + Step(arm, t, va)
    ensures Find(t, Page(w)) == Find(t, Page(va))
  {
    hide WellFormed;
    var h := Find(t, Page(va));
    var size := LevelSize(h.level);
    if Jumps(arm, h) {
      DivModUnique(w, size, va / size, w - va);
      SameEntry(t, va, w);
    } else {
      DivModUnique(w, PAGESIZE, va / PAGESIZE, w - va);
    }
  }

  /** Moving the cursor keeps it at the start of whatever it would move past next. */
  lemma StepKeepsStart(arm: bool, t: Tree, va: nat)
    requires WellFormed(t) && AtStart(arm, t, va)
    ensures AtStart(arm, t, va + Step(arm, t, va))
  {
    hide WellFormed;
    var h, v := Find(t, Page(va)), va + Step(arm, t, va);
    var h' := Find(t, Page(v));
    var size' := LevelSize(h'.level);
    AlignedStep(va, h.level);
    if v % size' != 0 {
      DivModUnique(v - 1, size', v / size', v % size' - 1);
      SameEntry(t, v, v - 1);
      NothingSkipped(arm, t, va, v - 1);
      if Jumps(arm, h) {
        NextEntryDiffers(t, va);
      }
    }
  }

  lemma AlignedStep(va: nat, level: nat)
    requires va % PAGESIZE == 0 && level <= LEVEL_MAX
    ensures (va + PAGESIZE) % PAGESIZE == 0 && (va + LevelSize(level)) % PAGESIZE == 0
  {
    match level
    case 0 =>
    case 1 => assert va + LevelSize(level) == PAGESIZE * (va / PAGESIZE + 512);
    case 2 => assert va + LevelSize(level) == PAGESIZE * (va / PAGESIZE + 0x4_0000);
    case _ => assert va + LevelSize(level) == PAGESIZE * (va / PAGESIZE + 0x800_0000);
  }

  /** A mapping the iterator yields: the location of its leaf entry, and its address and size. */
  datatype VaMapping = VaMapping(node: nat, slot: nat, va: nat, size: nat)

  ghost predicate Right(t: Tree, m: VaMapping) {
    && Mapped(t, m.va) && m.va % PAGESIZE == 0
    && m == VaMapping(Find(t, Page(m.va)).node, Find(t, Page(m.va)).slot, m.va, PAGESIZE)
  }

  ghost predicate NoneMapped(t: Tree, lo: nat, hi: nat) {
    forall w :: lo <= w < hi ==> !Mapped(t, w)
  }

  /** s has every mapped page below end. */
  ghost predicate Covers(t: Tree, s: seq<VaMapping>, end: nat) {
    forall w :: 0 <= w < end && w % PAGESIZE == 0 && Mapped(t, w) ==> exists i :: 0 <= i < |s| && s[i].va == w
  }

  ghost predicate Ascending(s: seq<VaMapping>) {
    forall i, j :: 0 <= i < j < |s| ==> s[i].va < s[j].va
  }

  lemma CoversNext(t: Tree, s: seq<VaMapping>, s': seq<VaMapping>, at: nat, end: nat)
    requires Covers(t, s, at) && |s'| == |s| + 1 && s == s'[..|s|] && s'[|s|].va == at && at % PAGESIZE == 0
    requires NoneMapped(t, at + PAGESIZE, end)
    ensures Covers(t, s', end)
  {
    hide Mapped;
    forall w | 0 <= w < end && w % PAGESIZE == 0 && Mapped(t, w)
      ensures exists i :: 0 <= i < |s'| && s'[i].va == w
    {
      if w < at {
        var i :| 0 <= i < |s| && s[i].va == w;
        assert s'[i].va == w;
      } else {
        assert w < at + PAGESIZE;
        assert s'[|s|].va == w;
      }
    }
  }

  lemma CoversNone(t: Tree, end: nat)
    requires NoneMapped(t, 0, end)
    ensures Covers(t, [], end)
  {
  }

  /** s has the mappings below at, each once, in order, none of them beyond last. */
  ghost predicate Listing(t: Tree, s: seq<VaMapping>, at: nat, last: nat) {
    && (forall i :: 0 <= i < |s| ==> Right(t, s[i]) && s[i].va <= last && s[i].va < at)
    && Ascending(s) && Covers(t, s, at)
  }

  lemma ListingNone(t: Tree, at: nat, last: nat)
    requires NoneMapped(t, 0, at)
    ensures Listing(t, [], at, last)
  {
    hide NoneMapped;
    CoversNone(t, at);
  }

  lemma ListingNext(t: Tree, s: seq<VaMapping>, m: VaMapping, at: nat, last: nat)
    requires Listing(t, s, m.va, last) && Right(t, m) && m.va <= last && m.va % PAGESIZE == 0 && m.va < at
    requires NoneMapped(t, m.va + PAGESIZE, at)
    ensures Listing(t, s + [m], at, last)
  {
    hide Right;
    hide Covers;
    hide NoneMapped;
    CoversNext(t, s, s + [m], m.va, at);
  }

  class PtIter {
    var va: nat
    var pte: Option<(nat, nat)>
    const pt: Space
    ghost const t: Tree // what pt held when the iterator was made

    constructor (pt: Space)
      requires pt.Valid()
      ensures Valid() && this.pt == pt && va == 0 && t == pt.T()
    {
      hide AtStart;
      hide WellFormed;
      hide Arm64Vm.Pagetable.Valid;
      hide Arm64Vm.Pagetable.T;
      hide Amd64Vm.Pagetable.Valid;
      hide Amd64Vm.Pagetable.T;
      this.pt, va, pte, t := pt, 0, None, pt.T();
      new;
      StartAtZero(pt.Arm64?, t);
    }

    ghost predicate Valid()
      reads this, match pt case Arm64(a) => {a as object} case Amd64(b) => {b as object}
    {
      pt.Valid() && pt.T() == t && AtStart(pt.Arm64?, t, va)
    }

    /** Moves past one entry; pte is left null unless that entry is a valid 4 KB one. */
    method Advance() returns (ok: bool)
      requires Valid()
      modifies this
      ensures Valid() && ok == (old(va) <= pt.UserEnd())
      ensures !ok ==> va == old(va)
      ensures ok ==> va > old(va) && NoneMapped(t, old(va) + PAGESIZE, va)
      ensures ok ==> if pte.Some? then va == old(va) + PAGESIZE
                                       && Right(t, VaMapping(pte.value.0, pte.value.1, old(va), PAGESIZE))
                     else NoneMapped(t, old(va), va)
    {
      hide WellFormed;
      hide Find;
      hide Arm64Vm.Pagetable.Valid;
      hide Arm64Vm.Pagetable.T;
      hide Amd64Vm.Pagetable.Valid;
      hide Amd64Vm.Pagetable.T;
      if va > pt.UserEnd() {
        return false;
      }
      StepKeepsStart(pt.Arm64?, t, va);
      forall w | va <= w < va + Step(pt.Arm64?, t, va)
        ensures Find(t, Page(w)) == Find(t, Page(va))
      {
        NothingSkipped(pt.Arm64?, t, va, w);
      }
      var entry, lvl, valid := pt.Walk(va, t);
      if entry.Some? {
        if lvl != 0 || !valid {
          pte := None;
        } else {
          pte := entry;
        }
        va := va + LevelSize(lvl);
      } else {
        pte := None;
        va := va + LevelSize(0);
      }
      ok := true;
    }

    /** The first valid 4 KB mapping at or after the cursor, if there is one up to and including USER_END. */
    method Next() returns (r: Option<VaMapping>)
      requires Valid()
      modifies this
      ensures Valid()
      ensures match r
              case Some(m) =>
                && old(va) <= m.va <= pt.UserEnd() && m.va % PAGESIZE == 0 && Right(t, m)
                && NoneMapped(t, old(va), m.va) && va == m.va + PAGESIZE
              case None => NoneMapped(t, old(va), pt.UserEnd() + 1)
    {
      hide WellFormed;
      hide AtStart;
      hide Mapped;
      var at := va;
      var ok := Advance();
      if !ok {
        return None;
      }
      while pte.None?
        invariant Valid() && old(va) <= at <= pt.UserEnd() && at < va
        invariant NoneMapped(t, old(va), at)
        invariant NoneMapped(t, at + PAGESIZE, va)
        invariant if pte.Some? then va == at + PAGESIZE
                                    && Right(t, VaMapping(pte.value.0, pte.value.1, at, PAGESIZE))
                  else NoneMapped(t, at, va)
        decreases pt.UserEnd() + 1 - at
      {
        at := va;
        ok := Advance();
        if !ok {
          return None;
        }
      }
      r := Some(VaMapping(pte.value.0, pte.value.1, at, PAGESIZE));
    }

    /** opApply: all mappings, in the order they are yielded. */
    method All() returns (s: seq<VaMapping>)
      requires Valid() && va == 0
      modifies this
      ensures Valid()
      ensures forall i :: 0 <= i < |s| ==> Right(t, s[i]) && s[i].va <= pt.UserEnd()
      ensures forall i, j :: 0 <= i < j < |s| ==> s[i].va < s[j].va
      ensures Covers(t, s, pt.UserEnd() + 1)
      ensures forall i :: 0 <= i < |s| ==>
                && s[i].va % PAGESIZE == 0 && s[i].size == PAGESIZE && s[i].node in t.nodes
                && s[i].slot < |t.nodes[s[i].node]| && t.nodes[s[i].node][s[i].slot].Leaf?
                && Translate(t, Page(s[i].va)) == Some(LeafMapping(t.nodes[s[i].node][s[i].slot]))
      // on amd64 the pages are the translated ones of the lower half of the address space
      ensures pt.Amd64? ==>
                forall va :: 0 <= va && va % PAGESIZE == 0 ==>
                  (va in Addresses(s) <==> va < 0x8000_0000_0000 && Translate(t, Page(va)).Some?)
      // on arm64 they are all translated ones, and page zero a second time
      ensures pt.Arm64? && Only4K(t, PAGES) ==>
                forall va :: 0 <= va && va % PAGESIZE == 0 ==>
                  (va in Addresses(s) <==> || (va < 0x1_0000_0000_0000 && Translate(t, Page(va)).Some?)
                                           || (va == 0x1_0000_0000_0000 && Translate(t, 0).Some?))
    {
      hide WellFormed;
      hide AtStart;
      hide Right;
      hide Covers;
      hide Ascending;
      hide NoneMapped;
      hide Listing;
      hide Mapped;
      hide Translate;
      hide Find;
      hide Only4K;
      hide Page;
      hide Amd64Vm.LargeAtUserEnd;
      hide Arm64Vm.Pagetable.Valid;
      hide Arm64Vm.Pagetable.T;
      hide Amd64Vm.Pagetable.Valid;
      hide Amd64Vm.Pagetable.T;
      s := [];
      ghost var last := pt.UserEnd();
      var map_ := Next();
      ListingNone(t, if map_.Some? then map_.value.va else last + 1, last);
      while map_.Some?
        invariant Valid()
        invariant map_.Some? ==> va == map_.value.va + PAGESIZE && Right(t, map_.value)
                                 && map_.value.va % PAGESIZE == 0 && map_.value.va <= last
        invariant Listing(t, s, if map_.Some? then map_.value.va else last + 1, last)
        decreases if map_.Some? then last + 1 - map_.value.va else 0
      {
        ghost var s0, m := s, map_.value;
        s := s + [map_.value];
        map_ := Next();
        ListingNext(t, s0, m, if map_.Some? then map_.value.va else last + 1, last);
      }
      Listed(t, s, last + 1, last);
      Entries(t, s);
      if pt.Amd64? {
        UserPages(t, s, last, Amd64Vm.USER_PAGES);
        Amd64End(t);
      } else if Only4K(t, PAGES) {
        UserPages(t, s, last, PAGES);
        ZeroAgain(t);
      }
    }
  }

  function Addresses(s: seq<VaMapping>): (r: set<nat>)
    ensures forall va :: va in r <==> exists i :: 0 <= i < |s| && s[i].va == va
  {
    set i | 0 <= i < |s| :: s[i].va
  }

  function LeafMapping(e: Entry): Mapping
    requires e.Leaf?
  {
    Mapping(e.pa, e.perm)
  }

  /** The entries that are yielded hold the translations of their pages. */
  lemma Entries(t: Tree, s: seq<VaMapping>)
    requires WellFormed(t) && forall i :: 0 <= i < |s| ==> Right(t, s[i])
    ensures forall i :: 0 <= i < |s| ==>
              && s[i].va % PAGESIZE == 0 && s[i].size == PAGESIZE && s[i].node in t.nodes
              && s[i].slot < |t.nodes[s[i].node]| && t.nodes[s[i].node][s[i].slot].Leaf?
              && Translate(t, Page(s[i].va)) == Some(LeafMapping(t.nodes[s[i].node][s[i].slot]))
  {
    hide WellFormed;
    hide Find;
    hide Page;
  }

  /** Up to the end of a user half with 4 KB pages only, the listed pages are the translated ones. */
  lemma UserPages(t: Tree, s: seq<VaMapping>, last: nat, limit: nat)
    requires WellFormed(t) && limit <= PAGES && Only4K(t, limit) && last == limit * PAGESIZE
    requires (forall i :: 0 <= i < |s| ==> Right(t, s[i]) && s[i].va <= last) && Covers(t, s, last + 1)
    ensures forall va :: 0 <= va && va % PAGESIZE == 0 ==>
              (va in Addresses(s) <==> || (va < last && Translate(t, Page(va)).Some?)
                                       || (va == last && Mapped(t, last)))
  {
    hide WellFormed;
    hide Translate;
    hide Page;
    hide Mapped;
    hide Only4K;
    forall va | 0 <= va && va % PAGESIZE == 0
      ensures va in Addresses(s) <==> || (va < last && Translate(t, Page(va)).Some?) || (va == last && Mapped(t, last))
    {
      if va < last {
        MappedIsTranslated(t, limit, va);
      }
    }
  }

  lemma ZeroAgain(t: Tree)
    requires WellFormed(t) && Only4K(t, PAGES)
    ensures Mapped(t, 0x1_0000_0000_0000) <==> Translate(t, 0).Some?
  {
    hide WellFormed;
    hide Find;
    hide Only4K;
    Arm64End(t);
    assert Page(0) == 0;
    MappedIsTranslated(t, PAGES, 0);
  }

  lemma Listed(t: Tree, s: seq<VaMapping>, at: nat, last: nat)
    requires Listing(t, s, at, last)
    ensures forall i :: 0 <= i < |s| ==> Right(t, s[i]) && s[i].va <= last
    ensures (forall i, j :: 0 <= i < j < |s| ==> s[i].va < s[j].va) && Covers(t, s, at)
  {
    hide Right;
    hide Covers;
  }
}
