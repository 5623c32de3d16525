/** The address space of a process (rekernel/proc.d, rekernel/syscall.d): mmap, munmap and brk over the interval
    lists, the page table and physical memory. */
module ProcVm {
  import opened Base
  import opened PageTree
  import opened Intervals
  import opened Vectors
  import opened Vmas
  import opened Files
  import Arm64Vm

  /** A system call path returns true, returns false, or stops the kernel in a failed ensure or assert. */
  datatype Outcome = Ok | Fail | Panic

  /** The file argument: fd < 0, an fd that is not open for seeking and reading, or an open file. */
  datatype FileArg = NoFile | BadFd | Open(file: VFile)

  const RWXU := Perm(true, true, true, true, false)

  ghost function FileSet(f: FileArg): set<object> {
    if f.Open? then {f.file} else {}
  }

  /** No page is translated into a block of memory. */
  ghost predicate Unused(t: Tree, pa: nat, size: nat) {
    WellFormed(t) &&
    forall pg :: 0 <= pg < PAGES && Translate(t, pg).Some? ==> !(pa <= Translate(t, pg).value.pa < pa + size)
  }

  /** A kzalloc result: page aligned, inside physical memory, and not in use. */
  ghost predicate Usable(block: Option<nat>, size: nat, t: Tree, ram: nat) {
    block.Some? ==> block.value % PAGESIZE == 0 && block.value + size <= ram
                    && block.value + size <= Arm64Vm.USER_END && Unused(t, block.value, size)
  }

  /** Every page has a frame of its own inside physical memory. */
  ghost predicate Frames(t: Tree, ram: nat) {
    && WellFormed(t)
    && (forall pg :: 0 <= pg < PAGES && Translate(t, pg).Some? ==>
          Translate(t, pg).value.pa % PAGESIZE == 0 && Translate(t, pg).value.pa + PAGESIZE <= ram)
    && (forall p, q :: 0 <= p < q < PAGES && Translate(t, p).Some? && Translate(t, q).Some? ==>
          Translate(t, p).value.pa != Translate(t, q).value.pa)
  }

  ghost function PosOf(f: FileArg): nat
    reads FileSet(f)
  {
    if f.Open? then f.file.pos else 0
  }

  /** ram is ram0 but for size bytes at ka, which hold the file from an offset on and then zeros, or only zeros. */
  ghost predicate FilledFrom(ram: seq<Byte>, ram0: seq<Byte>, ka: nat, size: nat, length: nat,
                             file: FileArg, offset: int, pos: nat)
  {
    && |ram| == |ram0|
    && forall p :: 0 <= p < |ram| ==>
         ram[p] == if !(ka <= p < ka + size) then ram0[p]
                   else if file.Open? then Image(file.file.data, if offset < 0 then pos else offset, length, p - ka)
                   else 0
  }

  method Memset0(ram: array<Byte>, at: nat, n: nat)
    requires at + n <= ram.Length
    modifies ram
    ensures forall p :: 0 <= p < ram.Length ==> ram[p] == if at <= p < at + n then 0 else old(ram[p])
  {
    forall j | at <= j < at + n {
      ram[j] := 0;
    }
  }

  /** The file part of map_vma_no_overlap, for a block that holds zeros and otherwise what ram0 has. */
  method FillFrom(file: FileArg, ram: array<Byte>, ka: nat, size: nat, length: nat, offset: int, ghost ram0: seq<Byte>)
    returns (r: Outcome)
    requires length <= size && ka + size <= ram.Length == |ram0|
    requires forall p :: 0 <= p < ram.Length ==> ram[p] == if ka <= p < ka + size then 0 else ram0[p]
    modifies ram, FileSet(file)
    ensures r == if file.BadFd? then Fail else Ok
    ensures r == Ok ==> FilledFrom(ram[..], ram0, ka, size, length, file, offset, old(PosOf(file)))
    ensures PosOf(file) == old(PosOf(file))
  {
    r := Ok;
    match file
    case NoFile =>
    case BadFd => r := Fail;
    case Open(f) => CopyFile(f, ram, ka, size, length, offset);
  }

  /** Takes a range out of the free list: the first free interval that meets it is replaced by what is left.
      (The part of map_vma_no_overlap that splits the free region.)  It goes wrong only when a request for memory is
      refused. */
  method TakeFree(free: IntervalTree<()>, start: nat, size: nat) returns (r: Outcome)
    requires free.Valid() && InArea(start, size)
    modifies free.intervals, free.intervals.data
    ensures free.Valid() && (free.intervals.data == old(free.intervals.data) || fresh(free.intervals.data))
    ensures r == Ok && old(Good(free.S()) && InBounds(free.S())) ==> FreeTaken(old(free.S()), free.S(), start, size)
    ensures old(free.Asked()) <= free.Asked() <= old(free.Asked()) + 2
    ensures r == Ok <==> free.Granted(old(free.Asked()), free.Asked())
    ensures r == Ok && start % PAGESIZE == 0 && size % PAGESIZE == 0 && old(StartsAligned(free.S())) ==>
              StartsAligned(free.S())
  {
    hide InBounds;
    hide Good;
    hide Sub64;
    hide StartsAligned;
    hide FreeTaken;
    hide FirstMeeting;
    hide NoneMeets;
    ghost var f := free.S();
    var found, i, k := free.Overlaps(start, size);
    var iStart, iSize := 0, 0;
    if found {
      iStart, iSize := i.value.start, i.value.size;
    }
    Met(f, start, size, found, k);
    var removed, j := free.Remove(iStart, iSize);
    if Good(f) && InBounds(f) {
      TakenOut(f, start, size, found, k, removed, j, iStart, iSize);
    }
    r := Ok;
    if removed {
      if StartsAligned(f) && start % PAGESIZE == 0 && size % PAGESIZE == 0 {
        SplitStarts(f, start, size, j);
      }
      r := AddParts(free, Interval(iStart, iSize, ()), start, size);
    }
  }

  /** Adds what is left of a free interval before and behind a range. */
  method AddParts(free: IntervalTree<()>, i: Interval<()>, start: nat, size: nat) returns (r: Outcome)
    requires free.Valid()
    modifies free.intervals, free.intervals.data
    ensures free.Valid() && (free.intervals.data == old(free.intervals.data) || fresh(free.intervals.data))
    ensures r == Ok ==> free.S() == old(free.S()) + LeftOf(i, start) + RightOf(i, start, size)
    ensures r == Panic ==> LeftOf(i, start) != [] && free.S() == old(free.S())
    ensures r == Fail ==> RightOf(i, start, size) != [] && free.S() == old(free.S()) + LeftOf(i, start)
    ensures old(free.Asked()) <= free.Asked() <= old(free.Asked()) + 2
    ensures r == Ok <==> free.Granted(old(free.Asked()), free.Asked())
  {
    hide Sub64;
    if Sub64(start, i.start) != 0 {
      var ok := free.Add(i.start, Sub64(start, i.start), ());
      if !ok {
        return Panic;
      }
    }
    assert free.S() == old(free.S()) + LeftOf(i, start);
    if Sub64(i.size, size) != 0 {
      var ok := free.Add(start + size, Sub64(i.size - (start - i.start), size), ());
      if !ok {
        return Fail;
      }
    }
    r := Ok;
  }

  lemma MeetsIff(v: Used, start: nat, size: nat, hit: bool, k: nat)
    requires hit ==> k < |v| && v[k].Overlaps(start, size)
    requires !hit ==> forall i :: 0 <= i < |v| ==> !v[i].Overlaps(start, size)
    ensures hit <==> !NoneMeets(v, start, size)
  {
  }

  lemma Met(f: Free, start: nat, size: nat, found: bool, k: nat)
    requires found ==> k < |f| && f[k].Overlaps(start, size) && forall i :: 0 <= i < k ==> !f[i].Overlaps(start, size)
    requires !found ==> forall i :: 0 <= i < |f| ==> !f[i].Overlaps(start, size)
    ensures if found then FirstMeeting(f, start, size, k) else NoneMeets(f, start, size)
  {
  }

  /** What the search and the removal found, in a free list without empty or overlapping intervals. */
  lemma TakenOut(f: Free, start: nat, size: nat, found: bool, k: nat, removed: bool, j: nat, iStart: nat, iSize: nat)
    requires Good(f) && InBounds(f) && InArea(start, size)
    requires if found then FirstMeeting(f, start, size, k) && iStart == f[k].start && iSize == f[k].size
             else NoneMeets(f, start, size) && iStart == iSize == 0
    requires removed ==> j < |f| && f[j].start == iStart && f[j].size == iSize
    requires !removed ==> forall i :: 0 <= i < |f| ==> f[i].start != iStart || f[i].size != iSize
    ensures removed <==> found
    ensures !removed ==> FreeTaken(f, f, start, size)
    ensures removed ==>
              FreeTaken(f, RemoveAt(f, j) + LeftOf(f[j], start) + RightOf(f[j], start, size), start, size)
  {
    hide Good;
    hide InBounds;
    hide Sub64;
    if found {
      SameIndex(f, k, j);
      TakenAt(f, start, size, k);
      assert RemoveAt(f, j) + LeftOf(f[j], start) + RightOf(f[j], start, size) == Split(f, start, size, k);
      hide FreeTaken;
    } else {
      NoEmpty(f);
    }
  }

  /** Replaces one interval that meets a range by what it has outside the range.  The interval is always found. */
  method PunchOne(vmas: IntervalTree<VmArea>, v: Interval<VmArea>, start: nat, size: nat, ghost k: nat) returns (ok: bool)
    requires vmas.Valid() && Good(vmas.S())
    requires k < |vmas.S()| && vmas.S()[k] == v && v.Overlaps(start, size)
    modifies vmas.intervals, vmas.intervals.data
    ensures vmas.Valid() && (vmas.intervals.data == old(vmas.intervals.data) || fresh(vmas.intervals.data))
    ensures ok ==> vmas.S() == Punched(old(vmas.S()), k, start, size)
    ensures old(vmas.Asked()) <= vmas.Asked() <= old(vmas.Asked()) + 2
    ensures ok <==> vmas.Granted(old(vmas.Asked()), vmas.Asked())
  {
    hide Good;
    ghost var j;
    ok, j := vmas.Remove(v.start, v.size);
    assert ok;
    SameIndex(old(vmas.S()), k, j);
    if v.start < start {
      ok := vmas.Add(v.start, start - v.start, v.val);
      if !ok {
        return;
      }
    }
    if v.End() > start + size {
      ok := vmas.Add(start + size, v.End() - (start + size), v.val);
    }
  }

  /** Cuts a range out of every interval that meets it: the loop of map_vma.  The intervals it removes are always
      found; it stops the kernel exactly when a request for memory is refused. */
  method PunchOut(vmas: IntervalTree<VmArea>, start: nat, size: nat) returns (r: Outcome)
    requires vmas.Valid() && Good(vmas.S())
    modifies vmas.intervals, vmas.intervals.data
    ensures vmas.Valid() && (vmas.intervals.data == old(vmas.intervals.data) || fresh(vmas.intervals.data))
    ensures r == Ok || r == Panic
    ensures r == Ok <==> vmas.Granted(old(vmas.Asked()), vmas.Asked())
    ensures old(vmas.Asked()) <= vmas.Asked() <= old(vmas.Asked()) + 2 * Meeting(old(vmas.S()), start, size)
    ensures r == Ok ==> Good(vmas.S()) && NoneMeets(vmas.S(), start, size)
    ensures r == Ok ==> SameOutside(old(vmas.S()), vmas.S(), start, size)
    ensures r == Ok && start % PAGESIZE == 0 && size % PAGESIZE == 0 && old(Proper(vmas.S())) ==> Proper(vmas.S())
    ensures NoneMeets(old(vmas.S()), start, size) ==> r == Ok && vmas.S() == old(vmas.S())
  {
    hide Good;
    hide Proper;
    hide SameOutside;
    hide Meeting;
    hide Punched;
    ghost var s0, a0 := vmas.S(), vmas.Asked();
    SameOutsideRefl(s0, start, size);
    var hit, v, k := vmas.Overlaps(start, size);
    while hit
      invariant vmas.Valid() && (vmas.intervals.data == old(vmas.intervals.data) || fresh(vmas.intervals.data))
      invariant Good(vmas.S()) && SameOutside(s0, vmas.S(), start, size)
      invariant start % PAGESIZE == 0 && size % PAGESIZE == 0 && Proper(s0) ==> Proper(vmas.S())
      invariant hit == v.Some?
      invariant hit ==> 0 <= k < |vmas.S()| && vmas.S()[k] == v.value && v.value.Overlaps(start, size)
      invariant !hit ==> NoneMeets(vmas.S(), start, size)
      invariant NoneMeets(s0, start, size) ==> !hit && vmas.S() == s0
      invariant a0 <= vmas.Asked() && vmas.Granted(a0, vmas.Asked())
      invariant vmas.Asked() - a0 + 2 * Meeting(vmas.S(), start, size) <= 2 * Meeting(s0, start, size)
      decreases Meeting(vmas.S(), start, size)
    {
      ghost var s := vmas.S();
      PunchedGood(s, k, start, size);
      PunchedMeeting(s, k, start, size);
      PunchedSame(s0, s, k, start, size);
      var ok := PunchOne(vmas, v.value, start, size, k);
      if !ok {
        return Panic;
      }
      hit, v, k := vmas.Overlaps(start, size);
    }
    r := Ok;
  }

  /** The region that maps size bytes from start on to the block at pa. */
  function Backing(start: nat, size: nat, pa: nat, perm: Perm): Region {
    Region(start / PAGESIZE, size / PAGESIZE, pa / PAGESIZE, Arm64Vm.ADDR_LIMIT, perm)
  }

  /** Looking up an address of a mapped block gives the byte of the block at the same offset. */
  lemma BackingLookup(t: Tree, t': Tree, start: nat, size: nat, pa: nat, perm: Perm, va: nat)
    requires WellFormed(t) && WellFormed(t') && Only4K(t', PAGES) && perm.read
    requires Overrides(t, t', Backing(start, size, pa, perm))
    requires start % PAGESIZE == 0 && size % PAGESIZE == 0 && pa % PAGESIZE == 0
    requires start + size <= Arm64Vm.USER_END && pa + size <= Arm64Vm.USER_END
    requires start <= va < start + size
    ensures Lookup(t', va) == VmMap(true, pa + (va - start), perm, PAGESIZE - va % PAGESIZE)
  {
    hide WellFormed;
    hide Only4K;
    hide Lookup;
    hide Find;
    hide Translate;
    var pg, r := va / PAGESIZE, Backing(start, size, pa, perm);
    assert Page(va) == pg;
    assert r.Holds(pg);
    assert Translate(t', pg) == r.At(pg);
    assert r.frame + (pg - r.base) < Arm64Vm.ADDR_LIMIT;
    LookupIsTranslation(t', va);
    LevelOfLeaf(t', PAGES, pg);
    LeafOfTranslation(t', pg);
  }

  /** A block mapped by map_vma can be read, written and run by the user, all of it. */
  lemma BackedAll(t: Tree, t': Tree, start: nat, size: nat, pa: nat)
    requires WellFormed(t) && WellFormed(t') && Only4K(t', PAGES) && Overrides(t, t', Backing(start, size, pa, RWXU))
    requires start % PAGESIZE == 0 && size % PAGESIZE == 0 && pa % PAGESIZE == 0
    requires start + size <= Arm64Vm.USER_END && pa + size <= Arm64Vm.USER_END
    ensures forall va :: start <= va < start + size ==>
              Lookup(t', va) == VmMap(true, pa + (va - start), Perm(true, true, true, true, false), PAGESIZE - va % PAGESIZE)
  {
    hide WellFormed;
    hide Only4K;
    hide Overrides;
    hide Lookup;
    forall va | start <= va < start + size
      ensures Lookup(t', va)
              == VmMap(true, pa + (va - start), Perm(true, true, true, true, false), PAGESIZE - va % PAGESIZE)
    {
      BackingLookup(t, t', start, size, pa, RWXU, va);
    }
  }

  /** A successful mapping, seen through the page table: address by address the file from the offset on, up to length
      or end of file, and then zeros; without a file, zeros.  No other byte of memory changed. */
  lemma FileMappingHolds(t: Tree, t': Tree, start: nat, size: nat, pa: nat, ram: seq<Byte>, ram0: seq<Byte>,
                         length: nat, file: FileArg, offset: int, pos: nat, va: nat)
    requires WellFormed(t) && WellFormed(t') && Only4K(t', PAGES)
    requires Overrides(t, t', Backing(start, size, pa, RWXU))
    requires start % PAGESIZE == 0 && size % PAGESIZE == 0 && pa % PAGESIZE == 0
    requires start + size <= Arm64Vm.USER_END && pa + size <= Arm64Vm.USER_END && pa + size <= |ram|
    requires FilledFrom(ram, ram0, pa, size, length, file, offset, pos)
    requires start <= va < start + size
    ensures Lookup(t', va).valid && Lookup(t', va).pa < |ram|
    ensures var byte, from, j := ram[Lookup(t', va).pa], if offset < 0 then pos else offset, va - start;
            if file.Open? && j < length && from + j < |file.file.data| then byte == file.file.data[from + j] else byte == 0
    ensures |ram| == |ram0| && forall p :: 0 <= p < |ram| && !(pa <= p < pa + size) ==> ram[p] == ram0[p]
  {
    hide WellFormed;
    hide Only4K;
    hide Overrides;
    hide Lookup;
    BackingLookup(t, t', start, size, pa, RWXU, va);
  }

  // The page table against the list of used intervals.

  /** A page of the mmap area is translated exactly when it lies in a used interval, and then the user may read, write
      and run it. */
  ghost predicate Synced(t: Tree, v: Used)
    requires WellFormed(t)
  {
    forall pg :: MMAP_START / PAGESIZE <= pg < MMAP_END / PAGESIZE ==>
      (Translate(t, pg).Some? <==> Has(v, pg * PAGESIZE)) && (Translate(t, pg).Some? ==> Translate(t, pg).value.perm == RWXU)
  }

  /** Mapping a range while the areas are overridden on the same range keeps the two in step. */
  lemma SyncedMap(t: Tree, t': Tree, v: Used, v': Used, start: nat, size: nat, area: VmArea, pa: nat)
    requires WellFormed(t) && WellFormed(t') && Synced(t, v)
    requires start % PAGESIZE == 0 && size % PAGESIZE == 0 && Overridden(v, v', start, size, area)
    requires Overrides(t, t', Backing(start, size, pa, RWXU))
    ensures Synced(t', v')
  {
    hide WellFormed;
    hide Translate;
    hide Has;
    hide Overridden;
    var r := Backing(start, size, pa, RWXU);
    forall pg | MMAP_START / PAGESIZE <= pg < MMAP_END / PAGESIZE
      ensures Translate(t', pg).Some? <==> Has(v', pg * PAGESIZE)
      ensures Translate(t', pg).Some? ==> Translate(t', pg).value.perm == RWXU
    {
      OverriddenHas(v, v', start, size, area, pg * PAGESIZE);
      assert Translate(t', pg) == if r.Holds(pg) then r.At(pg) else Translate(t, pg);
      assert Translate(t, pg).Some? <==> Has(v, pg * PAGESIZE);
      assert r.Holds(pg) <==> start <= pg * PAGESIZE < start + size;
    }
  }

  lemma SyncedUnmap(t: Tree, t': Tree, v: Used, k: nat)
    requires WellFormed(t) && WellFormed(t') && Synced(t, v) && Good(v) && k < |v|
    requires v[k].start % PAGESIZE == 0 && v[k].size % PAGESIZE == 0
    requires Cleared(t, t', v[k].start / PAGESIZE, v[k].size / PAGESIZE)
    ensures Synced(t', RemoveAt(v, k))
  {
    hide WellFormed;
    hide Translate;
    hide Has;
    hide Good;
    forall pg | MMAP_START / PAGESIZE <= pg < MMAP_END / PAGESIZE
      ensures Translate(t', pg).Some? <==> Has(RemoveAt(v, k), pg * PAGESIZE)
      ensures Translate(t', pg).Some? ==> Translate(t', pg).value.perm == RWXU
    {
      RemoveAtHas(v, k, pg * PAGESIZE);
      var base, count := v[k].start / PAGESIZE, v[k].size / PAGESIZE;
      assert Translate(t', pg) == if base <= pg < base + count then None else Translate(t, pg);
      assert base <= pg < base + count <==> v[k].Has(pg * PAGESIZE);
    }
  }

  lemma SyncedMapped(t: Tree, v: Used, k: nat)
    requires WellFormed(t) && Synced(t, v) && InBounds(v) && k < |v|
    requires v[k].start % PAGESIZE == 0 && v[k].size % PAGESIZE == 0
    ensures AllMapped(t, v[k].start / PAGESIZE, v[k].size / PAGESIZE)
  {
    hide WellFormed;
    hide Translate;
    var base, count := v[k].start / PAGESIZE, v[k].size / PAGESIZE;
    forall pg | base <= pg < base + count && pg < PAGES
      ensures Translate(t, pg).Some?
    {
      HasAt(v, k, pg * PAGESIZE);
    }
  }

  // The heap that brk moves.

  const BRK_BASE: nat := 0x1_0000_0000
  const RWU := Perm(true, true, false, true, false)

  datatype BrkResult = Brk(addr: nat) | EFault | ENoMem

  /** The pages from BRK_BASE up to top, which is at or above brk, are mapped for the user to read and write, and those
      between top and the mmap area are not mapped. */
  ghost predicate BrkOk(t: Tree, brk: nat, top: nat)
    requires WellFormed(t)
  {
    && BRK_BASE <= brk && CeilPg(brk) <= top <= MMAP_START && top % PAGESIZE == 0
    && (forall pg :: BRK_BASE / PAGESIZE <= pg < top / PAGESIZE ==> Translate(t, pg).Some? && Translate(t, pg).value.perm == RWU)
    && (forall pg :: top / PAGESIZE <= pg < MMAP_START / PAGESIZE ==> Translate(t, pg).None?)
  }

  /** Every heap address below brk is mapped for the user to read and write, and not to run. */
  lemma HeapLookup(t: Tree, brk: nat, top: nat, va: nat)
    requires WellFormed(t) && BrkOk(t, brk, top) && 0x1_0000_0000 <= va < brk
    ensures Lookup(t, va).valid && Lookup(t, va).perm == Perm(true, true, false, true, false)
  {
    hide WellFormed;
    hide Translate;
    hide Lookup;
    hide Find;
    assert Page(va) == va / PAGESIZE;
    LookupIsTranslation(t, va);
  }

  /** An address of the mmap area is mapped exactly when it lies in a used interval, and then for every use. */
  lemma AreaLookup(t: Tree, v: Used, va: nat)
    requires WellFormed(t) && Synced(t, v) && Aligned(v) && 0x70_0000_0000 <= va < 0xF0_0000_0000
    ensures Lookup(t, va).valid <==> exists i :: 0 <= i < |v| && v[i].start <= va < v[i].start + v[i].size
    ensures Lookup(t, va).valid ==> Lookup(t, va).perm == Perm(true, true, true, true, false)
  {
    hide WellFormed;
    hide Translate;
    hide Lookup;
    hide Find;
    var pg := va / PAGESIZE;
    assert Page(va) == pg;
    LookupIsTranslation(t, va);
    assert Translate(t, pg).Some? <==> Has(v, pg * PAGESIZE);
    forall i | 0 <= i < |v|
      ensures v[i].Has(pg * PAGESIZE) <==> v[i].start <= va < v[i].start + v[i].size
    {
      PageInside(v[i].start, v[i].size, va);
    }
  }

  /** Of a page aligned interval, a page is inside as a whole or outside. */
  lemma PageInside(start: nat, size: nat, va: nat)
    requires start % PAGESIZE == 0 && size % PAGESIZE == 0
    ensures start <= va / PAGESIZE * PAGESIZE < start + size <==> start <= va < start + size
  {
    var a, n, p := start / PAGESIZE, size / PAGESIZE, va / PAGESIZE;
    assert start == a * PAGESIZE && size == n * PAGESIZE;
  }

  /** What happens in the mmap area is no concern of the heap. */
  lemma BrkKept(t: Tree, t': Tree, brk: nat, top: nat)
    requires WellFormed(t) && WellFormed(t') && BrkOk(t, brk, top)
    requires forall pg :: 0 <= pg < MMAP_START / PAGESIZE ==> Translate(t', pg) == Translate(t, pg)
    ensures BrkOk(t', brk, top)
  {
    hide WellFormed;
    hide Translate;
  }

  lemma BrkKeptByMap(t: Tree, t': Tree, brk: nat, top: nat, start: nat, size: nat, pa: nat)
    requires WellFormed(t) && WellFormed(t') && BrkOk(t, brk, top) && MMAP_START <= start
    requires Overrides(t, t', Backing(start, size, pa, RWXU))
    ensures BrkOk(t', brk, top)
  {
    hide WellFormed;
    hide Translate;
    hide BrkOk;
    OnlyRegion(t, t', Backing(start, size, pa, RWXU));
    BrkKept(t, t', brk, top);
  }

  lemma BrkKeptByClear(t: Tree, t': Tree, brk: nat, top: nat, base: nat, count: nat)
    requires WellFormed(t) && WellFormed(t') && BrkOk(t, brk, top) && MMAP_START / PAGESIZE <= base
    requires Cleared(t, t', base, count)
    ensures BrkOk(t', brk, top)
  {
    hide WellFormed;
    hide Translate;
    hide BrkOk;
    BrkKept(t, t', brk, top);
  }

  /** Mapping fresh pages from brk up to a higher address moves the top there. */
  lemma BrkGrown(t: Tree, t': Tree, brk: nat, top: nat, addr: nat, pa: nat)
    requires WellFormed(t) && WellFormed(t') && BrkOk(t, brk, top) && top <= addr < MMAP_START
    requires Overrides(t, t', Backing(CeilPg(brk), CeilPg(addr) - CeilPg(brk), pa, RWU))
    ensures BrkOk(t', addr, CeilPg(addr))
  {
    hide WellFormed;
    hide Translate;
    hide CeilPg;
    var r := Backing(CeilPg(brk), CeilPg(addr) - CeilPg(brk), pa, RWU);
    assert CeilPg(addr) <= MMAP_START;
    forall pg | BRK_BASE / PAGESIZE <= pg < MMAP_START / PAGESIZE
      ensures pg < CeilPg(addr) / PAGESIZE ==> Translate(t', pg).Some? && Translate(t', pg).value.perm == RWU
      ensures pg >= CeilPg(addr) / PAGESIZE ==> Translate(t', pg).None?
    {
      assert Translate(t', pg) == if r.Holds(pg) then r.At(pg) else Translate(t, pg);
    }
  }

  /** A heap address whose page is mapped is below the top; one whose page is not mapped is not. */
  lemma BrkAt(t: Tree, brk: nat, top: nat, addr: nat)
    requires WellFormed(t) && BrkOk(t, brk, top) && BRK_BASE <= addr < MMAP_START
    ensures if Translate(t, Page(addr)).None? then top <= addr && CeilPg(brk) <= CeilPg(addr) <= MMAP_START
            else BrkOk(t, addr, top) && Translate(t, Page(addr)).value.perm.user
  {
    hide WellFormed;
    hide Translate;
    assert Page(addr) == addr / PAGESIZE;
  }

  lemma OnlyRegion(t: Tree, t': Tree, r: Region)
    requires WellFormed(t) && WellFormed(t') && r.limit > 0 && Overrides(t, t', r)
    ensures forall pg :: 0 <= pg < PAGES && !(r.base <= pg < r.base + r.count) ==> Translate(t', pg) == Translate(t, pg)
  {
    hide WellFormed;
    hide Translate;
  }

  lemma SyncedBelow(t: Tree, t': Tree, v: Used)
    requires WellFormed(t) && WellFormed(t') && Synced(t, v)
    requires forall pg :: MMAP_START / PAGESIZE <= pg < PAGES ==> Translate(t', pg) == Translate(t, pg)
    ensures Synced(t', v)
  {
    hide WellFormed;
    hide Translate;
    hide Has;
  }

  /** Where size bytes go: to the start of the first free interval that is large enough; nowhere if they would then
      leave the area or end where it ends. */
  ghost function Spot(f: Free, size: nat): Option<nat> {
    if f == [] then None
    else if f[0].size < size then Spot(f[1..], size)
    else if MMAP_START <= f[0].start && f[0].start + size < MMAP_END then Some(f[0].start)
    else None
  }

  lemma {:induction false} SpotAt(f: Free, size: nat, k: nat)
    requires FirstFit(f, size, k)
    ensures Spot(f, size)
            == if MMAP_START <= f[k].start && f[k].start + size < MMAP_END then Some(f[k].start) else None
  {
    if k > 0 {
      SpotAt(f[1..], size, k - 1);
    }
  }

  lemma {:induction false} SpotInside(f: Free, size: nat)
    requires Spot(f, size).Some?
    ensures 0x70_0000_0000 <= Spot(f, size).value && Spot(f, size).value + size < 0xF0_0000_0000
  {
    if f[0].size < size {
      SpotInside(f[1..], size);
    }
  }

  lemma {:induction false} NoSpot(f: Free, size: nat)
    requires forall i :: 0 <= i < |f| ==> f[i].size < size
    ensures Spot(f, size) == None
  {
    if f != [] {
      NoSpot(f[1..], size);
    }
  }

  // Frames of their own.

  /** Mapping a block that is not in use gives each of its pages a frame of its own. */
  lemma FramesMap(t: Tree, t': Tree, start: nat, size: nat, pa: nat, perm: Perm, ram: nat)
    requires Frames(t, ram) && WellFormed(t') && Overrides(t, t', Backing(start, size, pa, perm)) && perm.read
    requires size % PAGESIZE == 0 && Usable(Some(pa), size, t, ram)
    ensures Frames(t', ram)
  {
    hide WellFormed;
    hide Translate;
    var r := Backing(start, size, pa, perm);
    forall pg | 0 <= pg < PAGES && Translate(t', pg).Some?
      ensures r.Holds(pg) ==> Translate(t', pg).value.pa == pa + (pg - r.base) * PAGESIZE
                              && pa <= Translate(t', pg).value.pa < pa + size
      ensures !r.Holds(pg) ==> Translate(t', pg) == Translate(t, pg) && !(pa <= Translate(t, pg).value.pa < pa + size)
      ensures Translate(t', pg).value.pa % PAGESIZE == 0 && Translate(t', pg).value.pa + PAGESIZE <= ram
    {
      assert Translate(t', pg) == if r.Holds(pg) then r.At(pg) else Translate(t, pg);
      if r.Holds(pg) {
        FrameAt(pa, size, pg - r.base);
      }
    }
  }

  lemma FrameAt(pa: nat, size: nat, i: nat)
    requires pa % PAGESIZE == 0 && size % PAGESIZE == 0 && i < size / PAGESIZE && pa + size <= Arm64Vm.USER_END
    ensures (pa / PAGESIZE + i) % Arm64Vm.ADDR_LIMIT * PAGESIZE == pa + i * PAGESIZE
    ensures (pa + i * PAGESIZE) % PAGESIZE == 0 && pa + i * PAGESIZE + PAGESIZE <= pa + size
  {
    var q := pa / PAGESIZE + i;
    assert q < Arm64Vm.ADDR_LIMIT;
    DivModUnique(q, Arm64Vm.ADDR_LIMIT, 0, q);
    AlignedSum(pa, i * PAGESIZE);
  }

  lemma FramesClear(t: Tree, t': Tree, base: nat, count: nat, ram: nat)
    requires Frames(t, ram) && WellFormed(t') && Cleared(t, t', base, count)
    ensures Frames(t', ram)
  {
    hide WellFormed;
    hide Translate;
  }

  // The invariant of an address space.

  /** What every operation keeps, fixed mappings included: the used intervals are in order, a page of the mmap area is
      translated exactly when it lies in one, the heap is mapped up to brk, and no two pages share a frame. */
  ghost predicate VmOk(t: Tree, v: Used, brk: nat, top: nat, ram: nat) {
    WellFormed(t) && Proper(v) && Synced(t, v) && BrkOk(t, brk, top) && Frames(t, ram)
  }

  lemma VmOkMapped(t: Tree, t': Tree, v: Used, v': Used, brk: nat, top: nat, ram: nat,
                   start: nat, size: nat, area: VmArea, pa: nat)
    requires VmOk(t, v, brk, top, ram) && WellFormed(t') && Proper(v') && Overridden(v, v', start, size, area)
    requires InArea(start, size) && start % PAGESIZE == 0 && size % PAGESIZE == 0
    requires Overrides(t, t', Backing(start, size, pa, RWXU)) && Usable(Some(pa), size, t, ram)
    ensures VmOk(t', v', brk, top, ram)
  {
    hide WellFormed;
    hide Proper;
    hide Synced;
    hide BrkOk;
    hide Frames;
    hide Overrides;
    hide Overridden;
    hide Usable;
    SyncedMap(t, t', v, v', start, size, area, pa);
    BrkKeptByMap(t, t', brk, top, start, size, pa);
    FramesMap(t, t', start, size, pa, RWXU, ram);
  }

  lemma VmOkUnmapped(t: Tree, t': Tree, v: Used, brk: nat, top: nat, ram: nat, k: nat)
    requires VmOk(t, v, brk, top, ram) && WellFormed(t') && k < |v|
    requires Cleared(t, t', v[k].start / PAGESIZE, v[k].size / PAGESIZE)
    ensures VmOk(t', RemoveAt(v, k), brk, top, ram)
  {
    hide WellFormed;
    hide Synced;
    hide BrkOk;
    hide Frames;
    hide Cleared;
    RemovedProper(v, k);
    InBoundsAt(v, k);
    AlignedAt(v, k);
    hide Good;
    hide InBounds;
    hide Aligned;
    SyncedUnmap(t, t', v, k);
    BrkKeptByClear(t, t', brk, top, v[k].start / PAGESIZE, v[k].size / PAGESIZE);
    FramesClear(t, t', v[k].start / PAGESIZE, v[k].size / PAGESIZE, ram);
  }

  lemma RemovedProper(v: Used, k: nat)
    requires Proper(v) && k < |v|
    ensures Proper(RemoveAt(v, k))
  {
    hide Good;
    RemoveAtGood(v, k);
    ReplacedShape(v, k, []);
    assert RemoveAt(v, k) + [] == RemoveAt(v, k);
  }

  /** v' gives every address what v gives it, but for the range, which has no area. */
  ghost predicate Removed(v: Used, v': Used, start: nat, size: nat) {
    forall a, area :: 0 <= a ==> (Holds(v', a, area) <==> Holds(v, a, area) && !(start <= a < start + size))
  }

  lemma RemovedMeans(v: Used, v': Used, start: nat, size: nat, a: nat, x: VmArea)
    requires Removed(v, v', start, size)
    ensures (exists i :: 0 <= i < |v'| && v'[i].start <= a < v'[i].start + v'[i].size && v'[i].val == x)
            <==> !(start <= a < start + size)
                 && exists i :: 0 <= i < |v| && v[i].start <= a < v[i].start + v[i].size && v[i].val == x
  {
    HoldsMeans(v, a, x);
    HoldsMeans(v', a, x);
    hide Holds;
  }

  lemma RemovedAt(v: Used, k: nat)
    requires Good(v) && k < |v|
    ensures Removed(v, RemoveAt(v, k), v[k].start, v[k].size)
  {
    hide Good;
    hide Holds;
    forall a: nat, area
      ensures Holds(RemoveAt(v, k), a, area) <==> Holds(v, a, area) && !v[k].Has(a)
    {
      RemoveAtHolds(v, k, a, area);
    }
  }

  /** A free list on which a request is refused although a free interval would do: the first that is large enough is
      the last of the area. */
  lemma SpotMissed()
    ensures var page := Interval(MMAP_START, PAGESIZE, ());
            var last := Interval(MMAP_END - PAGESIZE, PAGESIZE, ());
            var used := [Interval(MMAP_START + PAGESIZE, MMAP_SIZE - 2 * PAGESIZE, VmArea(0, 0))];
            && Partition(used, [last, page])
            && Spot([last, page], PAGESIZE) == None && Spot([page], PAGESIZE) == Some(MMAP_START)
  {
    var page := Interval(MMAP_START, PAGESIZE, ());
    var last := Interval(MMAP_END - PAGESIZE, PAGESIZE, ());
    var used := [Interval(MMAP_START + PAGESIZE, MMAP_SIZE - 2 * PAGESIZE, VmArea(0, 0))];
    forall a | MMAP_START <= a < MMAP_END
      ensures Has(used, a) <==> !Has([last, page], a)
    {
      HasOne(used[0], a, used[0].val);
      assert [last, page] == [last] + [page];
      ConcatHas([last], [page], a);
      HasOne(last, a, ());
      HasOne(page, a, ());
    }
    hide Has;
    SpotAt([last, page], PAGESIZE, 0);
    SpotAt([page], PAGESIZE, 0);
  }

  /** The frames that map_region used, whether it succeeded or not. */
  lemma FramesUsed(t: Tree, t': Tree, h: seq<nat>, h': seq<nat>, base: nat, count: nat, ok: bool)
    requires ok ==> Fed(t, t', h, h') && Seats(t') == Seats(t) + Wanted(base, count)
    requires !ok ==> |h| < Lacking(t, base, count)
    ensures |h| <= |h'| + 3 * count
  {
    hide Seats;
    hide Wanted;
    hide Lacking;
    if ok {
      FedFew(t, t', h, h', base, count);
    } else {
      LackingFew(t, base, count);
    }
  }

  /** Gives a mapping its memory: zeroed pages from kzalloc, which returned block, filled from the file if any.  It
      runs out of memory exactly when there is no block or there are too few frames for the tables it lacks. */
  method Back(pt: Arm64Vm.Pagetable, ram: array<Byte>, start: nat, size: nat, length: nat, file: FileArg, offset: int,
              block: Option<nat>)
    returns (r: Outcome, oom: bool)
    requires pt.Valid() && Only4K(pt.T(), PAGES) && start % PAGESIZE == 0 && size % PAGESIZE == 0 && length <= size
    requires start + size <= Arm64Vm.USER_END && Usable(block, size, pt.T(), ram.Length)
    modifies pt, ram, FileSet(file)
    ensures pt.Valid() && Only4K(pt.T(), PAGES)
    ensures oom <==> block.None? || |old(pt.heap)| < Lacking(old(pt.T()), start / PAGESIZE, size / PAGESIZE)
    ensures |old(pt.heap)| <= |pt.heap| + 3 * ((if block.Some? then size else 0) / PAGESIZE)
    ensures r == if block.None? then Fail else if oom then Panic else if file.BadFd? then Fail else Ok
    ensures !oom ==> Overrides(old(pt.T()), pt.T(), Backing(start, size, block.value, RWXU))
    ensures !oom ==> forall va :: start <= va < start + size ==>
              Lookup(pt.T(), va)
              == VmMap(true, block.value + (va - start), Perm(true, true, true, true, false), PAGESIZE - va % PAGESIZE)
    ensures r == Ok ==> FilledFrom(ram[..], old(ram[..]), block.value, size, length, file, offset, old(PosOf(file)))
    ensures PosOf(file) == old(PosOf(file))
  {
    hide WellFormed;
    hide Only4K;
    hide Overrides;
    hide Lacking;
    hide Unused;
    hide FilledFrom;
    hide Seats;
    hide Wanted;
    hide Fed;
    hide Lookup;
    hide Arm64Vm.Pagetable.Valid;
    hide Arm64Vm.Pagetable.T;
    if block.None? {
      return Fail, true;
    }
    var ka := block.value;
    Memset0(ram, ka, size);
    var mapped, done := pt.MapRegion(start, ka, size, RWXU);
    FramesUsed(old(pt.T()), pt.T(), old(pt.heap), pt.heap, start / PAGESIZE, size / PAGESIZE, mapped);
    if !mapped {
      return Panic, true;
    }
    BackedAll(old(pt.T()), pt.T(), start, size, ka);
    r := FillFrom(file, ram, ka, size, length, offset, old(ram[..]));
    oom := false;
  }

  /** The loop of unmap_vma.  The level is passed to each walk and comes back from it, so that the walks find the
      4 KB entries only because every page of the range has one. */
  method UnmapPages(pt: Arm64Vm.Pagetable, start: nat, size: nat)
    requires pt.Valid() && Only4K(pt.T(), PAGES) && start % PAGESIZE == 0 && size % PAGESIZE == 0 && size > 0
    requires start + size <= Arm64Vm.USER_END
    requires AllMapped(pt.T(), start / PAGESIZE, size / PAGESIZE)
    modifies pt
    ensures pt.Valid() && Only4K(pt.T(), PAGES) && Cleared(old(pt.T()), pt.T(), start / PAGESIZE, size / PAGESIZE)
    ensures pt.heap == old(pt.heap)
  {
    hide WellFormed;
    hide Only4K;
    hide Find;
    hide Translate;
    hide FindTo;
    hide Seats;
    hide Cleared;
    hide AllMapped;
    hide Arm64Vm.Pagetable.Valid;
    hide Arm64Vm.Pagetable.T;
    ghost var t, base, done := pt.T(), start / PAGESIZE, 0;
    ClearedNone(t, base);
    StillMapped(t, t, base, size / PAGESIZE, 0, PAGES);
    var lvl := 0;
    FindToStops(pt.T(), Page(start), 0);
    var pte, l := pt.Walk(start, lvl);
    lvl := l;
    var i := 0;
    while i < size
      invariant i == done * PAGESIZE && i <= size && lvl == 0
      invariant pt.Valid() && Only4K(pt.T(), PAGES) && Cleared(t, pt.T(), base, done) && pt.heap == old(pt.heap)
    {
      StillMapped(t, pt.T(), base, size / PAGESIZE, done, PAGES);
      assert Page(start + i) == base + done;
      ghost var u := pt.T();
      FindToStops(u, base + done, 0);
      pte, l := pt.Walk(start + i, lvl);
      lvl := l;
      pt.Invalidate(pte.value, base + done);
      ClearedNext(t, u, pt.T(), base, done);
      done := done + 1;
      i := i + PAGESIZE;
    }
  }

  /** Whether the page of an address is mapped, and for the user. */
  method PageAt(pt: Arm64Vm.Pagetable, addr: nat) returns (valid: bool, user: bool)
    requires pt.Valid()
    ensures var m := Translate(pt.T(), Page(addr)); valid == m.Some? && user == (m.Some? && m.value.perm.user)
  {
    hide WellFormed;
    hide Find;
    hide FindTo;
    hide Arm64Vm.Pagetable.Valid;
    hide Arm64Vm.Pagetable.T;
    FindToStops(pt.T(), Page(addr), 0);
    var pte, level := pt.Walk(addr, 0);
    if pte.Some? {
      pt.Entry(pte.value.node, pte.value.slot);
      valid := pt.mem[pte.value.node][pte.value.slot].valid;
      user := valid && pt.mem[pte.value.node][pte.value.slot].GetPerm().user;
    } else {
      valid, user := false, false;
    }
  }

  /** The memory for moving brk from one address to another: what kzalloc is asked for, in 64 bits. */
  function BrkSize(brk: nat, addr: nat): nat {
    Sub64(CeilPg(addr), CeilPg(brk))
  }

  /** What moving brk to a user address does, and when it fails: the page of addr is looked at; if it is not mapped, all
      pages from brk up to addr are; and if it is mapped, it must be the user's. */
  ghost predicate BrkMoved(t: Tree, heap: seq<nat>, t': Tree, brk: nat, addr: nat, block: Option<nat>, r: BrkResult) {
    WellFormed(t) && WellFormed(t') &&
    var m := Translate(t, Page(addr));
    && (r.Brk? ==> r.addr == addr)
    && (r == EFault <==> m.Some? && !m.value.perm.user)
    && (r == ENoMem <==>
          && m.None?
          && (block.None? || |heap| < Lacking(t, CeilPg(brk) / PAGESIZE, BrkSize(brk, addr) / PAGESIZE)))
    && (m.Some? ==> t' == t)
    && (r.Brk? && m.None? ==> Overrides(t, t', Backing(CeilPg(brk), BrkSize(brk, addr), block.value, RWU)))
    && (forall pg :: 0 <= pg < PAGES && !(CeilPg(brk) <= pg * PAGESIZE < CeilPg(addr)) ==>
          Translate(t', pg) == Translate(t, pg))
  }

  /** ram is ram0 but for the block that kzalloc returned, if it did, which holds zeros. */
  ghost predicate Zeroed(ram: seq<Byte>, ram0: seq<Byte>, block: Option<nat>, size: nat) {
    && |ram| == |ram0|
    && forall p :: 0 <= p < |ram| ==>
         ram[p] == if block.Some? && block.value <= p < block.value + size then 0 else ram0[p]
  }

  /** The part of sys_brk that changes the page table. */
  method MoveBrk(pt: Arm64Vm.Pagetable, ram: array<Byte>, brk: nat, addr: nat, block: Option<nat>)
    returns (r: BrkResult)
    requires pt.Valid() && Only4K(pt.T(), PAGES) && brk < Arm64Vm.USER_END && 0 < addr < Arm64Vm.USER_END
    requires Usable(block, BrkSize(brk, addr), pt.T(), ram.Length)
    modifies pt, ram
    ensures pt.Valid() && Only4K(pt.T(), PAGES)
    ensures BrkMoved(old(pt.T()), old(pt.heap), pt.T(), brk, addr, block, r)
    ensures r.Brk? && old(Translate(pt.T(), Page(addr))).None? ==>
              forall va :: CeilPg(brk) <= va < CeilPg(addr) ==>
                Lookup(pt.T(), va) == VmMap(true, block.value + (va - CeilPg(brk)), Perm(true, true, false, true, false),
                                            PAGESIZE - va % PAGESIZE)
    ensures |old(pt.heap)| <= |pt.heap| + 3 * ((if block.Some? then BrkSize(brk, addr) else 0) / PAGESIZE)
    ensures Zeroed(ram[..], old(ram[..]), if old(Translate(pt.T(), Page(addr))).None? then block else None,
                   BrkSize(brk, addr))
  {
    hide WellFormed;
    hide Only4K;
    hide Translate;
    hide Lookup;
    hide CeilPg;
    hide Overrides;
    hide Lacking;
    hide Usable;
    hide Sub64;
    hide Seats;
    hide Wanted;
    hide Fed;
    hide Arm64Vm.Pagetable.Valid;
    hide Arm64Vm.Pagetable.T;
    ghost var t := pt.T();
    var oldbrk := CeilPg(brk);
    var valid, user := PageAt(pt, addr);
    BrkFits(brk, addr, block, t, ram.Length);
    if !valid {
      var diff := Sub64(CeilPg(addr), oldbrk);
      if block.None? {
        return ENoMem;
      }
      Memset0(ram, block.value, diff);
      var ok, done := pt.MapRegion(oldbrk, block.value, diff, RWU);
      BrkOnly(t, pt.T(), oldbrk, diff, done, block.value);
      FramesUsed(t, pt.T(), old(pt.heap), pt.heap, oldbrk / PAGESIZE, diff / PAGESIZE, ok);
      if !ok {
        return ENoMem;
      }
      HeapBacked(t, pt.T(), brk, addr, block, ram.Length);
    } else if !user {
      return EFault;
    }
    r := Brk(addr);
  }

  class Proc {
    const pt: Arm64Vm.Pagetable
    const vmas: IntervalTree<VmArea>
    const freeVmas: IntervalTree<()>
    const ram: array<Byte>
    var brk: nat
    ghost var top: nat // the end of the heap pages mapped so far

    ghost predicate Valid()
      reads this, pt, vmas, vmas.intervals, freeVmas, freeVmas.intervals
    {
      && pt.Valid() && Only4K(pt.T(), PAGES) && brk < Arm64Vm.USER_END
      && vmas.Valid() && freeVmas.Valid()
      && vmas.intervals as object != freeVmas.intervals as object
      && vmas.intervals.data as object != freeVmas.intervals.data as object
      && ram as object != vmas.intervals.data as object && ram as object != freeVmas.intervals.data as object
    }

    ghost function V(): Used
      requires vmas.Valid()
      reads vmas, vmas.intervals, vmas.intervals.data
    {
      vmas.S()
    }

    ghost function F(): Free
      requires freeVmas.Valid()
      reads freeVmas, freeVmas.intervals, freeVmas.intervals.data
    {
      freeVmas.S()
    }

    /** The invariant of this address space. */
    ghost predicate VmInv()
      requires Valid()
      reads this, pt, vmas, vmas.intervals, vmas.intervals.data, freeVmas, freeVmas.intervals, freeVmas.intervals.data
    {
      VmOk(pt.T(), V(), brk, top, ram.Length) && StartsAligned(F())
    }

    /** With it, while all mappings are placed by the kernel: used and free intervals partition the mmap area. */
    ghost predicate Inv()
      requires Valid()
      reads this, pt, vmas, vmas.intervals, vmas.intervals.data, freeVmas, freeVmas.intervals, freeVmas.intervals.data
    {
      VmInv() && Partition(V(), F())
    }

    /** Every request for memory of the two lists since they had made av and af was granted. */
    ghost predicate Granted(av: nat, af: nat)
      reads vmas.intervals, freeVmas.intervals
    {
      vmas.Granted(av, vmas.Asked()) && freeVmas.Granted(af, freeVmas.Asked())
    }

    /** An address space without mappings: the whole mmap area is still to be added to the free list. */
    constructor (pt: Arm64Vm.Pagetable, ram: array<Byte>, vmaAnswers: nat -> bool, freeAnswers: nat -> bool)
      requires pt.Valid() && Only4K(pt.T(), PAGES)
      ensures Valid() && V() == [] && F() == [] && this.pt == pt && this.ram == ram && brk == 0
      ensures vmas.intervals.answers == vmaAnswers && freeVmas.intervals.answers == freeAnswers
      ensures vmas.Asked() == freeVmas.Asked() == 0
      ensures fresh(vmas.intervals) && fresh(vmas.intervals.data) && fresh(freeVmas.intervals)
      ensures fresh(freeVmas.intervals.data)
    {
      hide Arm64Vm.Pagetable.Valid;
      hide Arm64Vm.Pagetable.T;
      hide Only4K;
      hide WellFormed;
      this.pt, this.ram, brk := pt, ram, 0;
      vmas := new IntervalTree<VmArea>(vmaAnswers);
      freeVmas := new IntervalTree<()>(freeAnswers);
    }

    /** Adds an area and takes its range out of the free list; goes wrong exactly when a request for memory is refused. */
    method Record(start: nat, size: nat, area: VmArea) returns (r: Outcome)
      requires Valid() && InArea(start, size)
      modifies vmas.intervals, vmas.intervals.data, freeVmas.intervals, freeVmas.intervals.data
      ensures Valid()
      ensures vmas.intervals.data == old(vmas.intervals.data) || fresh(vmas.intervals.data)
      ensures freeVmas.intervals.data == old(freeVmas.intervals.data) || fresh(freeVmas.intervals.data)
      ensures old(vmas.Asked()) <= vmas.Asked() <= old(vmas.Asked()) + 1
      ensures old(freeVmas.Asked()) <= freeVmas.Asked() <= old(freeVmas.Asked()) + 2
      ensures r == Ok <==> Granted(old(vmas.Asked()), old(freeVmas.Asked()))
      ensures r == Ok ==> V() == old(V()) + [Interval(start, size, area)]
      ensures !vmas.Granted(old(vmas.Asked()), vmas.Asked()) ==> r == Fail && V() == old(V()) && F() == old(F())
      ensures r == Ok && old(Good(F()) && InBounds(F())) ==> FreeTaken(old(F()), F(), start, size)
      ensures r == Ok && start % PAGESIZE == 0 && size % PAGESIZE == 0 && old(StartsAligned(F())) ==> StartsAligned(F())
    {
      hide StartsAligned;
      hide WellFormed;
      hide Only4K;
      hide Good;
      hide InBounds;
      hide FreeTaken;
      hide Arm64Vm.Pagetable.Valid;
      hide Arm64Vm.Pagetable.T;
      var ok := vmas.Add(start, size, area);
      if !ok {
        return Fail;
      }
      r := TakeFree(freeVmas, start, size);
    }

    /** Adds a mapping where none is.  block is what kzalloc returned for it. */
    method MapVmaNoOverlap(start: nat, length: nat, prot: int, flags: int, file: FileArg, offset: int, block: Option<nat>)
      returns (r: Outcome, oom: bool)
      requires Valid() && start % PAGESIZE == 0 && InArea(start, CeilPg(length))
      requires Usable(block, CeilPg(length), pt.T(), ram.Length)
      modifies pt, ram, vmas.intervals, vmas.intervals.data, freeVmas.intervals, freeVmas.intervals.data, FileSet(file)
      ensures Valid()
      ensures vmas.intervals.data == old(vmas.intervals.data) || fresh(vmas.intervals.data)
      ensures freeVmas.intervals.data == old(freeVmas.intervals.data) || fresh(freeVmas.intervals.data)
      ensures old(vmas.Asked()) <= vmas.Asked() <= old(vmas.Asked()) + 1
      ensures old(freeVmas.Asked()) <= freeVmas.Asked() <= old(freeVmas.Asked()) + 2
      ensures oom <==> NoneMeets(old(V()), start, CeilPg(length)) &&
                       !(Granted(old(vmas.Asked()), old(freeVmas.Asked())) && block.Some?
                         && |old(pt.heap)| >= Lacking(old(pt.T()), start / PAGESIZE, CeilPg(length) / PAGESIZE))
      ensures |old(pt.heap)| <= |pt.heap| + 3 * ((if block.Some? then CeilPg(length) else 0) / PAGESIZE)
      ensures r == Panic ==> oom
      ensures r == Ok ==> !oom
      ensures oom && Granted(old(vmas.Asked()), old(freeVmas.Asked())) ==> r == if block.None? then Fail else Panic
      ensures !NoneMeets(old(V()), start, CeilPg(length)) ==>
                r == Fail && V() == old(V()) && F() == old(F()) && pt.T() == old(pt.T())
                && Granted(old(vmas.Asked()), old(freeVmas.Asked()))
      ensures !oom && NoneMeets(old(V()), start, CeilPg(length)) ==>
                && r == (if file.BadFd? then Fail else Ok)
                && V() == old(V()) + [Interval(start, CeilPg(length), VmArea(prot, flags))]
                && (old(Good(F()) && InBounds(F())) ==> FreeTaken(old(F()), F(), start, CeilPg(length)))
                && (old(StartsAligned(F())) ==> StartsAligned(F()))
                && Overrides(old(pt.T()), pt.T(), Backing(start, CeilPg(length), block.value, RWXU))
                && (forall va :: start <= va < start + CeilPg(length) ==>
                      Lookup(pt.T(), va) == VmMap(true, block.value + (va - start), Perm(true, true, true, true, false),
                                                  PAGESIZE - va % PAGESIZE))
      ensures r == Ok ==>
                FilledFrom(ram[..], old(ram[..]), block.value, CeilPg(length), length, file, offset, old(PosOf(file)))
      ensures PosOf(file) == old(PosOf(file))
    {
      hide StartsAligned;
      hide Lookup;
      hide NoneMeets;
      hide PosOf;
      hide Backing;
      hide Usable;
      hide WellFormed;
      hide Only4K;
      hide Overrides;
      hide Lacking;
      hide Good;
      hide InBounds;
      hide CeilPg;
      hide FilledFrom;
      hide FreeTaken;
      hide Arm64Vm.Pagetable.Valid;
      hide Arm64Vm.Pagetable.T;
      var size := CeilPg(length);
      var hit, _, k := vmas.Overlaps(start, size);
      MeetsIff(V(), start, size, hit, k);
      if hit {
        return Fail, false;
      }
      r := Record(start, size, VmArea(prot, flags));
      if r != Ok {
        return r, true;
      }
      r, oom := Back(pt, ram, start, size, length, file, offset, block);
    }

    /** Maps a given range over whatever is mapped there. */
    method MapVma(start: nat, length: nat, prot: int, flags: int, file: FileArg, offset: int, block: Option<nat>)
      returns (r: Outcome, oom: bool)
      requires Valid() && Good(V()) && start % PAGESIZE == 0 && length > 0
      requires Usable(block, CeilPg(length), pt.T(), ram.Length)
      modifies pt, ram, vmas.intervals, vmas.intervals.data, freeVmas.intervals, freeVmas.intervals.data, FileSet(file)
      ensures Valid()
      ensures vmas.intervals.data == old(vmas.intervals.data) || fresh(vmas.intervals.data)
      ensures freeVmas.intervals.data == old(freeVmas.intervals.data) || fresh(freeVmas.intervals.data)
      ensures old(vmas.Asked()) <= vmas.Asked() <= old(vmas.Asked() + 2 * Meeting(V(), start, CeilPg(length))) + 1
      ensures old(freeVmas.Asked()) <= freeVmas.Asked() <= old(freeVmas.Asked()) + 2
      ensures oom <==> InArea(start, CeilPg(length)) &&
                       !(Granted(old(vmas.Asked()), old(freeVmas.Asked())) && block.Some?
                         && |old(pt.heap)| >= Lacking(old(pt.T()), start / PAGESIZE, CeilPg(length) / PAGESIZE))
      ensures |old(pt.heap)| <= |pt.heap| + 3 * ((if block.Some? then CeilPg(length) else 0) / PAGESIZE)
      ensures r == Panic ==> oom
      ensures r == Ok ==> !oom
      ensures oom && Granted(old(vmas.Asked()), old(freeVmas.Asked())) ==> r == if block.None? then Fail else Panic
      ensures !InArea(start, CeilPg(length)) ==> r == Fail && V() == old(V()) && F() == old(F()) && pt.T() == old(pt.T())
      ensures InArea(start, CeilPg(length)) && !oom ==>
                && r == (if file.BadFd? then Fail else Ok)
                && Good(V()) && Overridden(old(V()), V(), start, CeilPg(length), VmArea(prot, flags))
                && (old(Proper(V())) ==> Proper(V()))
                && (old(NoneMeets(V(), start, CeilPg(length))) ==>
                      V() == old(V()) + [Interval(start, CeilPg(length), VmArea(prot, flags))])
                && (old(Good(F()) && InBounds(F())) ==> FreeTaken(old(F()), F(), start, CeilPg(length)))
                && (old(StartsAligned(F())) ==> StartsAligned(F()))
                && Overrides(old(pt.T()), pt.T(), Backing(start, CeilPg(length), block.value, RWXU))
                && (forall va :: start <= va < start + CeilPg(length) ==>
                      Lookup(pt.T(), va) == VmMap(true, block.value + (va - start), Perm(true, true, true, true, false),
                                                  PAGESIZE - va % PAGESIZE))
      ensures r == Ok ==>
                FilledFrom(ram[..], old(ram[..]), block.value, CeilPg(length), length, file, offset, old(PosOf(file)))
      ensures PosOf(file) == old(PosOf(file))
      ensures !oom && old(VmInv()) ==> VmInv()
      ensures InArea(start, CeilPg(length)) && !oom && old(Inv()) ==>
                (Inv() <==> SplitsWell(old(F()), start, CeilPg(length)))
    {
      hide StartsAligned;
      hide Lookup;
      hide WellFormed;
      hide Only4K;
      hide Overrides;
      hide Lacking;
      hide Usable;
      hide Good;
      hide Proper;
      hide InBounds;
      hide CeilPg;
      hide FilledFrom;
      hide FreeTaken;
      hide Overridden;
      hide SameOutside;
      hide NoneMeets;
      hide Meeting;
      hide Partition;
      hide SplitsWell;
      hide VmOk;
      hide Arm64Vm.Pagetable.Valid;
      hide Arm64Vm.Pagetable.T;
      var size := CeilPg(length);
      if start < MMAP_START || start + size >= MMAP_END {
        return Fail, false;
      }
      ghost var v, f, t := V(), F(), pt.T();
      r := PunchOut(vmas, start, size);
      if r == Panic {
        return Panic, true;
      }
      ghost var s := V();
      r, oom := MapVmaNoOverlap(start, length, prot, flags, file, offset, block);
      if !oom {
        FixedMapped(v, s, V(), f, F(), Interval(start, size, VmArea(prot, flags)));
        if VmOk(t, v, brk, top, ram.Length) {
          VmOkProper(t, v, brk, top, ram.Length);
          VmOkMapped(t, pt.T(), v, V(), brk, top, ram.Length, start, size, VmArea(prot, flags), block.value);
        }
      }
    }

    /** The start of a process: the whole mmap area is free and brk is at its base. */
    method Init() returns (ok: bool)
      requires Valid() && V() == [] && F() == [] && Frames(pt.T(), ram.Length)
      requires forall pg :: BRK_BASE / PAGESIZE <= pg < PAGES ==> Translate(pt.T(), pg) == None
      modifies this, freeVmas.intervals, freeVmas.intervals.data
      ensures Valid() && (ok ==> Inv() && brk == 0x1_0000_0000)
      ensures V() == [] && (ok ==> F() == [Interval(0x70_0000_0000, 0x80_0000_0000, ())])
      ensures freeVmas.intervals.data == old(freeVmas.intervals.data) || fresh(freeVmas.intervals.data)
      ensures ok <==> freeVmas.Granted(old(freeVmas.Asked()), freeVmas.Asked())
      ensures freeVmas.Asked() <= old(freeVmas.Asked()) + 1
    {
      hide WellFormed;
      hide Only4K;
      hide Translate;
      hide Frames;
      hide Partition;
      hide VmOk;
      hide Arm64Vm.Pagetable.Valid;
      hide Arm64Vm.Pagetable.T;
      VmOkStart(pt.T(), ram.Length);
      PartitionStart();
      ok := freeVmas.Add(MMAP_START, MMAP_SIZE, ());
      assert ok ==> F() == [Interval(MMAP_START, MMAP_SIZE, ())];
      brk, top := BRK_BASE, BRK_BASE;
    }

    /** Maps at the start of the first free interval that is large enough. */
    method MapVmaAny(length: nat, prot: int, flags: int, file: FileArg, offset: int, block: Option<nat>)
      returns (r: Outcome, oom: bool, addr: nat)
      requires Valid() && VmInv() && length > 0 && Usable(block, CeilPg(length), pt.T(), ram.Length)
      modifies pt, ram, vmas.intervals, vmas.intervals.data, freeVmas.intervals, freeVmas.intervals.data, FileSet(file)
      ensures Valid()
      ensures vmas.intervals.data == old(vmas.intervals.data) || fresh(vmas.intervals.data)
      ensures freeVmas.intervals.data == old(freeVmas.intervals.data) || fresh(freeVmas.intervals.data)
      ensures old(vmas.Asked()) <= vmas.Asked() && old(freeVmas.Asked()) <= freeVmas.Asked() <= old(freeVmas.Asked()) + 2
      ensures old(Inv()) ==> vmas.Asked() <= old(vmas.Asked()) + 1
      ensures var spot := Spot(old(F()), CeilPg(length));
              oom <==> spot.Some? &&
                       !(Granted(old(vmas.Asked()), old(freeVmas.Asked())) && block.Some?
                         && |old(pt.heap)| >= Lacking(old(pt.T()), spot.value / PAGESIZE, CeilPg(length) / PAGESIZE))
      ensures |old(pt.heap)| <= |pt.heap| + 3 * ((if block.Some? then CeilPg(length) else 0) / PAGESIZE)
      ensures r == Panic ==> oom
      ensures oom && Granted(old(vmas.Asked()), old(freeVmas.Asked())) ==> r == if block.None? then Fail else Panic
      ensures r == Ok <==> !oom && !file.BadFd? && Spot(old(F()), CeilPg(length)).Some?
      ensures r == Ok ==> 0x70_0000_0000 <= addr && addr + CeilPg(length) < 0xF0_0000_0000
      ensures !oom ==> VmInv() && (old(Inv()) ==> Inv())
      ensures var spot := Spot(old(F()), CeilPg(length));
              if spot.None? then V() == old(V()) && F() == old(F()) && pt.T() == old(pt.T())
              else !oom ==>
                && addr == spot.value && Overridden(old(V()), V(), addr, CeilPg(length), VmArea(prot, flags))
                && Overrides(old(pt.T()), pt.T(), Backing(addr, CeilPg(length), block.value, RWXU))
                && (forall va :: addr <= va < addr + CeilPg(length) ==>
                      Lookup(pt.T(), va) == VmMap(true, block.value + (va - addr), Perm(true, true, true, true, false),
                                                  PAGESIZE - va % PAGESIZE))
                && (old(Inv()) ==> NoneMeets(old(V()), addr, CeilPg(length))
                                   && V() == old(V()) + [Interval(addr, CeilPg(length), VmArea(prot, flags))])
      ensures r == Ok ==>
                FilledFrom(ram[..], old(ram[..]), block.value, CeilPg(length), length, file, offset, old(PosOf(file)))
      ensures PosOf(file) == old(PosOf(file))
    {
      hide Lookup;
      hide WellFormed;
      hide Only4K;
      hide Overrides;
      hide Lacking;
      hide Usable;
      hide CeilPg;
      hide FilledFrom;
      hide FreeTaken;
      hide Overridden;
      hide NoneMeets;
      hide Good;
      hide Proper;
      hide InBounds;
      hide Meeting;
      hide Partition;
      hide SplitsWell;
      hide StartsAligned;
      hide Spot;
      hide VmOk;
      hide Arm64Vm.Pagetable.Valid;
      hide Arm64Vm.Pagetable.T;
      var size := CeilPg(length);
      ghost var v, f := V(), F();
      addr := 0;
      var found, i, k := freeVmas.Find(size);
      assert f == freeVmas.S();
      if !found {
        NoSpot(f, size);
        return Fail, false, addr;
      }
      addr := i.value.start;
      SpotAt(f, size, k);
      StartAt(f, k);
      VmOkGood(pt.T(), v, brk, top, ram.Length);
      if Partition(v, f) {
        SpotIsClear(v, f, size, k);
      }
      r, oom := MapVma(addr, length, prot, flags, file, offset, block);
      if r == Ok {
        SpotInside(f, size);
      }
    }

    /** Unmaps exactly one mapping. */
    method UnmapVma(start: nat, size: nat) returns (r: bool, oom: bool)
      requires Valid() && VmInv()
      modifies pt, vmas.intervals, vmas.intervals.data, freeVmas.intervals, freeVmas.intervals.data
      ensures Valid()
      ensures vmas.intervals.data == old(vmas.intervals.data) || fresh(vmas.intervals.data)
      ensures freeVmas.intervals.data == old(freeVmas.intervals.data) || fresh(freeVmas.intervals.data)
      ensures vmas.Asked() == old(vmas.Asked()) && old(freeVmas.Asked()) <= freeVmas.Asked() <= old(freeVmas.Asked()) + 1
      ensures oom <==> Listed(old(V()), start, size) && !freeVmas.Granted(old(freeVmas.Asked()), freeVmas.Asked())
      ensures r <==> Listed(old(V()), start, size) && !oom
      ensures !oom ==> VmInv() && (old(Inv()) ==> Inv())
      ensures r ==> Removed(old(V()), V(), start, size) && F() == old(F()) + [Interval(start, size, ())]
      ensures r ==> Cleared(old(pt.T()), pt.T(), start / PAGESIZE, size / PAGESIZE)
      ensures !r ==> pt.T() == old(pt.T()) && F() == old(F()) && (!oom ==> V() == old(V()))
      ensures pt.heap == old(pt.heap)
    {
      hide WellFormed;
      hide Only4K;
      hide Cleared;
      hide AllMapped;
      hide VmOk;
      hide Partition;
      hide Removed;
      hide Good;
      hide Arm64Vm.Pagetable.Valid;
      hide Arm64Vm.Pagetable.T;
      ghost var v, f, t := V(), F(), pt.T();
      var ok, k := vmas.Remove(start, size);
      if !ok {
        return false, false;
      }
      VmOkAt(t, v, brk, top, ram.Length, k);
      RemovedAt(v, k);
      ok := freeVmas.Add(start, size, ());
      if !ok {
        return false, true;
      }
      UnmapPages(pt, start, size);
      VmOkUnmapped(t, pt.T(), v, brk, top, ram.Length, k);
      if Partition(v, f) {
        PartitionUnmap(v, f, k);
      }
      r, oom := true, false;
    }

    /** Moves the end of the heap.  block is what kzalloc returns, should it be asked for memory. */
    method SysBrk(addr: nat, block: Option<nat>) returns (r: BrkResult)
      requires Valid()
      requires addr < Arm64Vm.USER_END ==> Usable(block, BrkSize(brk, addr), pt.T(), ram.Length)
      modifies this, pt, ram
      ensures Valid() && V() == old(V()) && F() == old(F())
      ensures var asked := 0 < addr < Arm64Vm.USER_END && old(Translate(pt.T(), Page(addr))).None?;
              Zeroed(ram[..], old(ram[..]), if asked then block else None, BrkSize(old(brk), addr))
      ensures |old(pt.heap)| <= |pt.heap| + 3 * ((if block.Some? then BrkSize(old(brk), addr) else 0) / PAGESIZE)
      ensures brk == if addr == 0 || addr >= Arm64Vm.USER_END then old(brk) else addr
      ensures addr >= Arm64Vm.USER_END ==> r == EFault && pt.T() == old(pt.T())
      ensures addr == 0 ==> r == Brk(brk) && pt.T() == old(pt.T())
      ensures 0 < addr < Arm64Vm.USER_END ==> BrkMoved(old(pt.T()), old(pt.heap), pt.T(), old(brk), addr, block, r)
      ensures 0 < addr < Arm64Vm.USER_END && r.Brk? && old(Translate(pt.T(), Page(addr))).None? ==>
                forall va :: CeilPg(old(brk)) <= va < CeilPg(addr) ==>
                  Lookup(pt.T(), va) == VmMap(true, block.value + (va - CeilPg(old(brk))),
                                              Perm(true, true, false, true, false), PAGESIZE - va % PAGESIZE)
      ensures r.Brk? ==> r.addr == if addr == 0 then old(brk) else addr
      ensures r == EFault <==>
                || addr >= 0x1_0000_0000_0000
                || (addr > 0 && old(Translate(pt.T(), Page(addr))).Some?
                    && !old(Translate(pt.T(), Page(addr))).value.perm.user)
      ensures r == ENoMem <==>
                && 0 < addr < 0x1_0000_0000_0000 && old(Translate(pt.T(), Page(addr))).None?
                && (block.None? || |old(pt.heap)| < Lacking(old(pt.T()), CeilPg(old(brk)) / PAGESIZE,
                                                            BrkSize(old(brk), addr) / PAGESIZE))
      ensures old(VmInv()) && (addr == 0 || 0x1_0000_0000 <= addr < 0x70_0000_0000) ==>
                r != EFault && (r.Brk? ==> VmInv())
    {
      hide Lacking;
      hide Translate;
      hide Lookup;
      hide CeilPg;
      hide WellFormed;
      hide Only4K;
      hide VmOk;
      hide Usable;
      hide BrkMoved;
      hide BrkSize;
      hide Arm64Vm.Pagetable.Valid;
      hide Arm64Vm.Pagetable.T;
      if addr >= Arm64Vm.USER_END {
        return EFault;
      } else if addr == 0 {
        return Brk(brk);
      }
      ghost var t, brk0 := pt.T(), brk;
      var oldbrk := brk;
      brk := addr;
      r := MoveBrk(pt, ram, oldbrk, addr, block);
      BrkResults(t, old(pt.heap), pt.T(), brk0, addr, block, r);
      if VmOk(t, V(), brk0, top, ram.Length) && BRK_BASE <= addr < MMAP_START {
        top := VmOkBrk(t, old(pt.heap), pt.T(), V(), brk0, top, ram.Length, addr, block, r);
      }
    }
  }

  lemma VmOkStart(t: Tree, ram: nat)
    requires Frames(t, ram) && forall pg :: BRK_BASE / PAGESIZE <= pg < PAGES ==> Translate(t, pg) == None
    ensures VmOk(t, [], BRK_BASE, BRK_BASE, ram)
  {
    hide WellFormed;
    hide Translate;
  }

  /** The parts of the invariant at one used interval. */
  lemma VmOkAt(t: Tree, v: Used, brk: nat, top: nat, ram: nat, k: nat)
    requires VmOk(t, v, brk, top, ram) && k < |v|
    ensures Good(v) && WellFormed(t)
    ensures v[k].start % PAGESIZE == 0 && v[k].size % PAGESIZE == 0 && v[k].size > 0
    ensures v[k].End() <= MMAP_END && AllMapped(t, v[k].start / PAGESIZE, v[k].size / PAGESIZE)
  {
    hide WellFormed;
    hide BrkOk;
    hide Frames;
    hide Synced;
    hide AllMapped;
    NoEmpty(v);
    InBoundsAt(v, k);
    AlignedAt(v, k);
    SyncedMapped(t, v, k);
  }

  lemma StartAt(f: Free, k: nat)
    requires StartsAligned(f) && k < |f|
    ensures f[k].start % PAGESIZE == 0
  {
  }

  lemma VmOkGood(t: Tree, v: Used, brk: nat, top: nat, ram: nat)
    requires VmOk(t, v, brk, top, ram)
    ensures Good(v)
  {
    hide WellFormed;
    hide Synced;
    hide BrkOk;
    hide Frames;
    hide Good;
  }

  lemma VmOkProper(t: Tree, v: Used, brk: nat, top: nat, ram: nat)
    requires VmOk(t, v, brk, top, ram)
    ensures Proper(v)
  {
  }

  /** The lists after a fixed mapping: s is what cutting the range out left of v. */
  lemma FixedMapped(v: Used, s: Used, v': Used, f: Free, f': Free, x: Interval<VmArea>)
    requires Good(s) && NoneMeets(s, x.start, x.size) && SameOutside(v, s, x.start, x.size) && v' == s + [x]
    requires InArea(x.start, x.size) && x.start % PAGESIZE == 0 && x.size % PAGESIZE == 0
    requires Proper(v) ==> Proper(s)
    requires Good(f) && InBounds(f) ==> FreeTaken(f, f', x.start, x.size)
    ensures Good(v') && Overridden(v, v', x.start, x.size, x.val) && (Proper(v) ==> Proper(v'))
    ensures Partition(v, f) ==> (Partition(v', f') <==> SplitsWell(f, x.start, x.size))
  {
    hide Good;
    hide InBounds;
    hide Aligned;
    hide SameOutside;
    hide Overridden;
    hide FreeTaken;
    hide SplitsWell;
    AppendOverrides(v, s, x);
    if Partition(v, f) {
      PartitionFixed(v, v', f, f', x.start, x.size, x.val);
    }
  }

  lemma SpotIsClear(v: Used, f: Free, size: nat, k: nat)
    requires Partition(v, f) && FirstFit(f, size, k) && size > 0
    ensures Good(v) && Good(f) && InBounds(f) && f[k].start % PAGESIZE == 0 && MMAP_START <= f[k].start
    ensures NoneMeets(v, f[k].start, size) && Meeting(v, f[k].start, size) == 0
    ensures f[k].start + size < MMAP_END ==> SplitsWell(f, f[k].start, size)
  {
    hide Has;
    FreeIsClear(v, f, size, k);
    InBoundsAt(f, k);
    AlignedAt(f, k);
    MeetingNone(v, f[k].start, size);
  }

  /** A block for moving brk exists only if brk moves up. */
  lemma BrkFits(brk: nat, addr: nat, block: Option<nat>, t: Tree, ram: nat)
    requires addr < Arm64Vm.USER_END && brk < Arm64Vm.USER_END && Usable(block, BrkSize(brk, addr), t, ram)
    ensures CeilPg(addr) <= Arm64Vm.USER_END && CeilPg(brk) % PAGESIZE == 0 && CeilPg(addr) % PAGESIZE == 0
    ensures block.Some? ==> BrkSize(brk, addr) == CeilPg(addr) - CeilPg(brk) && CeilPg(addr) >= CeilPg(brk)
    ensures block.Some? ==> BrkSize(brk, addr) % PAGESIZE == 0 && block.value + BrkSize(brk, addr) <= ram
  {
    hide Sub64;
    hide Unused;
    hide CeilPg;
    CeilBelow(addr);
    CeilBelow(brk);
    Sub64Is(CeilPg(addr), CeilPg(brk));
    AlignedSum(CeilPg(addr), CeilPg(brk));
  }

  lemma CeilBelow(addr: nat)
    requires addr < Arm64Vm.USER_END
    ensures CeilPg(addr) <= Arm64Vm.USER_END
  {
  }

  lemma BrkOnly(t: Tree, t': Tree, oldbrk: nat, diff: nat, done: nat, pa: nat)
    requires WellFormed(t) && WellFormed(t') && oldbrk % PAGESIZE == 0 && diff % PAGESIZE == 0 && done <= diff / PAGESIZE
    requires Overrides(t, t', Region(oldbrk / PAGESIZE, done, pa / PAGESIZE, Arm64Vm.ADDR_LIMIT, RWU))
    ensures forall pg :: 0 <= pg < PAGES && !(oldbrk <= pg * PAGESIZE < oldbrk + diff) ==>
              Translate(t', pg) == Translate(t, pg)
  {
    hide WellFormed;
    hide Translate;
    OnlyRegion(t, t', Region(oldbrk / PAGESIZE, done, pa / PAGESIZE, Arm64Vm.ADDR_LIMIT, RWU));
    hide Overrides;
  }

  /** The pages for moving brk up can be read and written by the user, and not run. */
  lemma HeapBacked(t: Tree, t': Tree, brk: nat, addr: nat, block: Option<nat>, ram: nat)
    requires WellFormed(t) && WellFormed(t') && Only4K(t', PAGES) && block.Some?
    requires brk < Arm64Vm.USER_END && addr < Arm64Vm.USER_END && Usable(block, BrkSize(brk, addr), t, ram)
    requires Overrides(t, t', Backing(CeilPg(brk), BrkSize(brk, addr), block.value, RWU))
    ensures forall va :: CeilPg(brk) <= va < CeilPg(addr) ==>
              Lookup(t', va) == VmMap(true, block.value + (va - CeilPg(brk)), Perm(true, true, false, true, false),
                                      PAGESIZE - va % PAGESIZE)
  {
    hide WellFormed;
    hide Only4K;
    hide Lookup;
    hide Translate;
    hide Overrides;
    hide Unused;
    hide CeilPg;
    hide BrkSize;
    BrkFits(brk, addr, block, t, ram);
    forall va | CeilPg(brk) <= va < CeilPg(addr)
      ensures Lookup(t', va) == VmMap(true, block.value + (va - CeilPg(brk)), Perm(true, true, false, true, false),
                                      PAGESIZE - va % PAGESIZE)
    {
      BackingLookup(t, t', CeilPg(brk), BrkSize(brk, addr), block.value, RWU, va);
    }
  }

  /** Where brk moved up, the new pages hold zeros, read through the page table. */
  lemma BrkZeros(t: Tree, heap: seq<nat>, t': Tree, brk: nat, addr: nat, block: Option<nat>, r: BrkResult,
                 ram: seq<Byte>, ram0: seq<Byte>, va: nat)
    requires BrkMoved(t, heap, t', brk, addr, block, r) && r.Brk? && Translate(t, Page(addr)).None?
    requires Only4K(t', PAGES) && brk < Arm64Vm.USER_END && addr < Arm64Vm.USER_END
    requires Usable(block, BrkSize(brk, addr), t, |ram|) && Zeroed(ram, ram0, block, BrkSize(brk, addr))
    requires CeilPg(brk) <= va < CeilPg(addr)
    ensures Lookup(t', va).valid && Lookup(t', va).perm == Perm(true, true, false, true, false)
    ensures Lookup(t', va).pa < |ram|
    ensures ram[Lookup(t', va).pa] == 0
  {
    hide WellFormed;
    hide Only4K;
    hide Lookup;
    hide Translate;
    hide Overrides;
    hide Lacking;
    hide Unused;
    hide CeilPg;
    hide Sub64;
    BrkFits(brk, addr, block, t, |ram|);
    BackingLookup(t, t', CeilPg(brk), BrkSize(brk, addr), block.value, RWU, va);
  }

  lemma BrkResults(t: Tree, heap: seq<nat>, t': Tree, brk: nat, addr: nat, block: Option<nat>, r: BrkResult)
    requires BrkMoved(t, heap, t', brk, addr, block, r)
    ensures WellFormed(t) && (r.Brk? ==> r.addr == addr)
    ensures var m := Translate(t, Page(addr));
            && (r == EFault <==> m.Some? && !m.value.perm.user)
            && (r == ENoMem <==> m.None? && (block.None? || |heap| < Lacking(t, CeilPg(brk) / PAGESIZE,
                                                                            BrkSize(brk, addr) / PAGESIZE)))
  {
    hide WellFormed;
    hide Translate;
    hide Lacking;
    hide Overrides;
  }

  /** Moving brk inside the heap never faults and keeps the invariant. */
  lemma VmOkBrk(t: Tree, heap: seq<nat>, t': Tree, v: Used, brk: nat, top: nat, ram: nat, addr: nat,
                block: Option<nat>, r: BrkResult) returns (top': nat)
    requires VmOk(t, v, brk, top, ram) && BRK_BASE <= addr < MMAP_START && brk < Arm64Vm.USER_END
    requires BrkMoved(t, heap, t', brk, addr, block, r) && Usable(block, BrkSize(brk, addr), t, ram)
    ensures r != EFault && (r.Brk? ==> VmOk(t', v, addr, top', ram))
  {
    hide WellFormed;
    hide Proper;
    hide Synced;
    hide Frames;
    hide BrkOk;
    hide CeilPg;
    hide Sub64;
    hide Overrides;
    hide Lacking;
    hide Usable;
    hide Translate;
    BrkAt(t, brk, top, addr);
    BrkFits(brk, addr, block, t, ram);
    top' := top;
    if r.Brk? && Translate(t, Page(addr)).None? {
      VmOkGrown(t, t', v, brk, top, ram, addr, block.value);
      top' := CeilPg(addr);
    }
  }

  lemma VmOkGrown(t: Tree, t': Tree, v: Used, brk: nat, top: nat, ram: nat, addr: nat, pa: nat)
    requires VmOk(t, v, brk, top, ram) && WellFormed(t') && BRK_BASE <= addr < MMAP_START
    requires Translate(t, Page(addr)).None? && BrkSize(brk, addr) == CeilPg(addr) - CeilPg(brk)
    requires BrkSize(brk, addr) % PAGESIZE == 0
    requires Overrides(t, t', Backing(CeilPg(brk), CeilPg(addr) - CeilPg(brk), pa, RWU))
    requires Usable(Some(pa), BrkSize(brk, addr), t, ram)
    ensures VmOk(t', v, addr, CeilPg(addr), ram)
  {
    hide WellFormed;
    hide Proper;
    hide Synced;
    hide Frames;
    hide BrkOk;
    hide CeilPg;
    hide Overrides;
    hide Usable;
    hide Translate;
    BrkAt(t, brk, top, addr);
    BrkGrown(t, t', brk, top, addr, pa);
    FramesMap(t, t', CeilPg(brk), CeilPg(addr) - CeilPg(brk), pa, RWU, ram);
    OnlyRegion(t, t', Backing(CeilPg(brk), CeilPg(addr) - CeilPg(brk), pa, RWU));
    SyncedBelow(t, t', v);
  }
}
