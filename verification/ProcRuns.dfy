/** Runs of system calls on one address space: kernel-placed mmap, exact munmap and brk inside the heap, in any order, on a
    new process (rekernel/proc.d, rekernel/syscall.d). */
module ProcRuns {
  import opened Base
  import opened PageTree
  import opened Intervals
  import opened Vmas
  import opened Files
  import opened ProcVm
  import Arm64Vm

  datatype Call =
    | Mmap(length: nat, prot: int, flags: int, file: FileArg, offset: int)
    | Munmap(start: nat, size: nat)
    | SetBrk(addr: nat)
  {
    predicate Valid() {
      (Mmap? ==> length > 0) && (SetBrk? ==> addr == 0 || BRK_BASE <= addr < MMAP_START)
    }

    ghost function Files(): set<object> { if Mmap? then FileSet(file) else {} }
  }

  /** The memory set aside for the request of one call. */
  datatype Chunk = Chunk(base: nat, size: nat)
  {
    predicate Valid(ram: nat) {
      base % PAGESIZE == 0 && base + size <= ram && base + size <= Arm64Vm.USER_END
    }

    predicate Apart(c: Chunk) { base + size <= c.base || c.base + c.size <= base }

    /** kzalloc hands the chunk out unless more is asked for. */
    function Kzalloc(n: nat): Option<nat> { if n <= size then Some(base) else None }
  }

  /** The chunk is large enough for whatever the call may ask for. */
  ghost predicate Suits(call: Call, c: Chunk) {
    match call
    case Mmap(length, _, _, _, _) => CeilPg(length) <= c.size
    case Munmap(_, _) => true
    case SetBrk(addr) => CeilPg(addr) <= BRK_BASE + c.size
  }

  /** The lists of the process are never refused memory. */
  ghost predicate NeverRefused(p: Proc) {
    (forall i: nat :: p.vmas.intervals.answers(i)) && (forall i: nat :: p.freeVmas.intervals.answers(i))
  }

  /** Frames enough for the tables of a chunk's pages. */
  function FramesFor(c: Chunk): nat { 3 * (c.size / PAGESIZE) }

  ghost predicate Chunks(cs: seq<Chunk>, ram: nat) {
    && (forall i :: 0 <= i < |cs| ==> cs[i].Valid(ram))
    && (forall i, j :: 0 <= i < j < |cs| ==> cs[i].Apart(cs[j]))
  }

  ghost predicate Untouched(t: Tree, c: Chunk) {
    Unused(t, c.base, c.size)
  }

  lemma ChunkUsable(t: Tree, c: Chunk, n: nat, ram: nat)
    requires c.Valid(ram) && Untouched(t, c)
    ensures Usable(c.Kzalloc(n), n, t, ram)
  {
    hide WellFormed;
    hide Translate;
  }

  /** Mapping the memory of one chunk leaves the others untouched. */
  lemma OthersUntouched(t: Tree, t': Tree, start: nat, size: nat, pa: nat, perm: Perm, c: Chunk)
    requires WellFormed(t') && perm.read && Overriding(t, t', Backing(start, size, pa, perm))
    requires pa % PAGESIZE == 0 && size % PAGESIZE == 0 && pa + size <= Arm64Vm.USER_END
    requires Untouched(t, c) && (pa + size <= c.base || c.base + c.size <= pa)
    ensures Untouched(t', c)
  {
    hide WellFormed;
    hide Translate;
    var r := Backing(start, size, pa, perm);
    forall pg | 0 <= pg < PAGES && Translate(t', pg).Some?
      ensures !(c.base <= Translate(t', pg).value.pa < c.base + c.size)
    {
      assert Translate(t', pg) == if r.Holds(pg) then r.At(pg) else Translate(t, pg);
      if r.Holds(pg) {
        FrameAt(pa, size, pg - r.base);
      }
    }
  }

  ghost predicate Overriding(t: Tree, t': Tree, r: Region) {
    WellFormed(t) && WellFormed(t') && r.limit > 0 && Overrides(t, t', r)
  }

  lemma ClearedUntouched(t: Tree, t': Tree, base: nat, count: nat, c: Chunk)
    requires WellFormed(t') && Untouched(t, c) && Cleared(t, t', base, count)
    ensures Untouched(t', c)
  {
    hide WellFormed;
    hide Translate;
  }

  /** What there is to see of an address space between two calls. */
  datatype Snap = Snap(t: Tree, v: Used, f: Free, brk: nat, top: nat)

  /** Used and free intervals partition the mmap area and their sizes sum to its size, a page of it is translated exactly
      when it lies in a used interval, the heap is mapped up to brk, and no two pages share a frame. */
  ghost predicate SnapOk(s: Snap, ram: nat) {
    VmOk(s.t, s.v, s.brk, s.top, ram) && Partition(s.v, s.f) && Sum(s.v) + Sum(s.f) == MMAP_SIZE
  }

  /** What a call that was not refused memory does. */
  ghost predicate Moved(s: Snap, call: Call, c: Chunk, s': Snap) {
    WellFormed(s.t) && WellFormed(s'.t) &&
    match call
    case Mmap(length, prot, flags, file, offset) =>
      var size := CeilPg(length);
      && s'.brk == s.brk
      && (match Spot(s.f, size)
          case None => s'.t == s.t && s'.v == s.v && s'.f == s.f
          case Some(a) =>
            && NoneMeets(s.v, a, size) && s'.v == s.v + [Interval(a, size, VmArea(prot, flags))]
            && Overrides(s.t, s'.t, Backing(a, size, c.base, RWXU)))
    case Munmap(start, size) =>
      && s'.brk == s.brk
      && if Listed(s.v, start, size) then
           && Removed(s.v, s'.v, start, size) && s'.f == s.f + [Interval(start, size, ())]
           && Cleared(s.t, s'.t, start / PAGESIZE, size / PAGESIZE)
         else s'.t == s.t && s'.v == s.v && s'.f == s.f
    case SetBrk(addr) =>
      && s'.v == s.v && s'.f == s.f && s'.brk == (if addr == 0 then s.brk else addr)
      && forall pg :: 0 <= pg < PAGES && !(CeilPg(s.brk) <= pg * PAGESIZE < CeilPg(addr)) ==>
           Translate(s'.t, pg) == Translate(s.t, pg)
  }

  ghost function Seen(p: Proc): Snap
    requires p.Valid()
    reads p, p.pt, p.vmas, p.vmas.intervals, p.vmas.intervals.data, p.freeVmas, p.freeVmas.intervals
    reads p.freeVmas.intervals.data
  {
    Snap(p.pt.T(), p.V(), p.F(), p.brk, p.top)
  }

  /** An mmap call. */
  method PerformMmap(p: Proc, call: Call, c: Chunk) returns (oom: bool)
    requires p.Valid() && p.Inv() && call.Mmap? && call.Valid() && c.Valid(p.ram.Length) && Untouched(p.pt.T(), c)
    modifies p.pt, p.ram, p.vmas.intervals, p.vmas.intervals.data
    modifies p.freeVmas.intervals, p.freeVmas.intervals.data, call.Files()
    ensures p.Valid()
    ensures p.vmas.intervals.data == old(p.vmas.intervals.data) || fresh(p.vmas.intervals.data)
    ensures p.freeVmas.intervals.data == old(p.freeVmas.intervals.data) || fresh(p.freeVmas.intervals.data)
    ensures !oom ==> p.Inv() && Moved(old(Seen(p)), call, c, Seen(p))
    ensures NeverRefused(p) && Suits(call, c) && |old(p.pt.heap)| >= FramesFor(c) ==> !oom
    ensures |old(p.pt.heap)| <= |p.pt.heap| + FramesFor(c)
    ensures !oom ==> forall d: Chunk :: c.Apart(d) && Untouched(old(p.pt.T()), d) ==> Untouched(p.pt.T(), d)
  {
    hide WellFormed;
    hide Only4K;
    hide Overrides;
    hide Lacking;
    hide Usable;
    hide CeilPg;
    hide FilledFrom;
    hide Overridden;
    hide NoneMeets;
    hide Partition;
    hide StartsAligned;
    hide Spot;
    hide VmOk;
    hide Untouched;
    hide Arm64Vm.Pagetable.Valid;
    hide Arm64Vm.Pagetable.T;
    ghost var t, f := p.pt.T(), p.F();
    var size := CeilPg(call.length);
    ChunkUsable(t, c, size, p.ram.Length);
    var r, addr;
    r, oom, addr := p.MapVmaAny(call.length, call.prot, call.flags, call.file, call.offset, c.Kzalloc(size));
    BlockFew(size, c);
    if Spot(f, size).Some? {
      TablesOf(t, Spot(f, size).value / PAGESIZE, size, c);
    }
    if !oom && Spot(f, size).Some? {
      forall d: Chunk | c.Apart(d) && Untouched(t, d)
        ensures Untouched(p.pt.T(), d)
      {
        OthersUntouched(t, p.pt.T(), addr, size, c.base, RWXU, d);
      }
    }
  }

  method PerformMunmap(p: Proc, call: Call, c: Chunk) returns (oom: bool)
    requires p.Valid() && p.Inv() && call.Munmap?
    modifies p.pt, p.vmas.intervals, p.vmas.intervals.data, p.freeVmas.intervals, p.freeVmas.intervals.data
    ensures p.Valid()
    ensures p.vmas.intervals.data == old(p.vmas.intervals.data) || fresh(p.vmas.intervals.data)
    ensures p.freeVmas.intervals.data == old(p.freeVmas.intervals.data) || fresh(p.freeVmas.intervals.data)
    ensures !oom ==> p.Inv() && Moved(old(Seen(p)), call, c, Seen(p))
    ensures NeverRefused(p) && Suits(call, c) && |old(p.pt.heap)| >= FramesFor(c) ==> !oom
    ensures |old(p.pt.heap)| <= |p.pt.heap| + FramesFor(c)
    ensures !oom ==> forall d: Chunk :: c.Apart(d) && Untouched(old(p.pt.T()), d) ==> Untouched(p.pt.T(), d)
  {
    hide WellFormed;
    hide Only4K;
    hide Cleared;
    hide Removed;
    hide Partition;
    hide StartsAligned;
    hide VmOk;
    hide Untouched;
    hide Listed;
    hide Arm64Vm.Pagetable.Valid;
    hide Arm64Vm.Pagetable.T;
    ghost var t := p.pt.T();
    var r;
    r, oom := p.UnmapVma(call.start, call.size);
    if r {
      forall d: Chunk | Untouched(t, d)
        ensures Untouched(p.pt.T(), d)
      {
        ClearedUntouched(t, p.pt.T(), call.start / PAGESIZE, call.size / PAGESIZE, d);
      }
    }
  }

  method PerformBrk(p: Proc, call: Call, c: Chunk) returns (oom: bool)
    requires p.Valid() && p.Inv() && call.SetBrk? && call.Valid() && c.Valid(p.ram.Length) && Untouched(p.pt.T(), c)
    modifies p, p.pt, p.ram
    ensures p.Valid()
    ensures !oom ==> p.Inv() && Moved(old(Seen(p)), call, c, Seen(p))
    ensures NeverRefused(p) && Suits(call, c) && |old(p.pt.heap)| >= FramesFor(c) ==> !oom
    ensures |old(p.pt.heap)| <= |p.pt.heap| + FramesFor(c)
    ensures !oom ==> forall d: Chunk :: c.Apart(d) && Untouched(old(p.pt.T()), d) ==> Untouched(p.pt.T(), d)
  {
    hide WellFormed;
    hide Only4K;
    hide Translate;
    hide BrkMoved;
    hide BrkSize;
    hide CeilPg;
    hide Usable;
    hide Zeroed;
    hide Partition;
    hide StartsAligned;
    hide VmOk;
    hide Untouched;
    hide Arm64Vm.Pagetable.Valid;
    hide Arm64Vm.Pagetable.T;
    ghost var t, h, brk0 := p.pt.T(), p.pt.heap, p.brk;
    if Suits(call, c) && call.addr != 0 {
      BrkSuits(t, p.V(), brk0, p.top, p.ram.Length, call.addr, c);
    }
    var block := c.Kzalloc(BrkSize(p.brk, call.addr));
    ChunkUsable(t, c, BrkSize(p.brk, call.addr), p.ram.Length);
    var r := p.SysBrk(call.addr, block);
    oom := r == ENoMem;
    BlockFew(BrkSize(brk0, call.addr), c);
    if oom {
      BrkStarves(t, h, p.pt.T(), brk0, call.addr, block, r, c);
    }
    if !oom && call.addr != 0 {
      BrkRun(t, h, p.pt.T(), brk0, call.addr, block, r, c);
    }
  }

  /** A mapping inside the chunk lacks no more tables than the chunk has frames for. */
  lemma TablesOf(t: Tree, base: nat, size: nat, c: Chunk)
    ensures size <= c.size ==> Lacking(t, base, size / PAGESIZE) <= FramesFor(c) && 3 * (size / PAGESIZE) <= FramesFor(c)
  {
    LackingFew(t, base, size / PAGESIZE);
  }

  lemma BlockFew(n: nat, c: Chunk)
    ensures 3 * ((if c.Kzalloc(n).Some? then n else 0) / PAGESIZE) <= FramesFor(c)
  {
  }

  lemma BrkStarves(t: Tree, heap: seq<nat>, t': Tree, brk: nat, addr: nat, block: Option<nat>, r: BrkResult, c: Chunk)
    requires BrkMoved(t, heap, t', brk, addr, block, r) && r == ENoMem && block == c.Kzalloc(BrkSize(brk, addr))
    ensures WellFormed(t) && Translate(t, Page(addr)).None? && (block.Some? ==> |heap| < FramesFor(c))
  {
    hide WellFormed;
    hide Translate;
    hide Overrides;
    hide BrkSize;
    hide CeilPg;
    TablesOf(t, CeilPg(brk) / PAGESIZE, BrkSize(brk, addr), c);
    hide Lacking;
  }

  /** A chunk that suits a heap break is handed out if it is asked for. */
  lemma BrkSuits(t: Tree, v: Used, brk: nat, top: nat, ram: nat, addr: nat, c: Chunk)
    requires VmOk(t, v, brk, top, ram) && brk < Arm64Vm.USER_END && BRK_BASE <= addr < MMAP_START
    requires CeilPg(addr) <= BRK_BASE + c.size
    ensures WellFormed(t) && (Translate(t, Page(addr)).None? ==> c.Kzalloc(BrkSize(brk, addr)).Some?)
  {
    hide WellFormed;
    hide Translate;
    hide Proper;
    hide Synced;
    hide Frames;
    hide CeilPg;
    hide Sub64;
    BrkAt(t, brk, top, addr);
    Sub64Is(CeilPg(addr), CeilPg(brk));
  }

  /** Moving brk touches no memory but the chunk. */
  lemma BrkRun(t: Tree, heap: seq<nat>, t': Tree, brk: nat, addr: nat, block: Option<nat>, r: BrkResult, c: Chunk)
    requires BrkMoved(t, heap, t', brk, addr, block, r) && r.Brk? && brk < Arm64Vm.USER_END && addr < Arm64Vm.USER_END
    requires block == c.Kzalloc(BrkSize(brk, addr)) && c.base % PAGESIZE == 0 && c.base + c.size <= Arm64Vm.USER_END
    requires Untouched(t, c)
    ensures WellFormed(t) && WellFormed(t')
    ensures forall pg :: 0 <= pg < PAGES && !(CeilPg(brk) <= pg * PAGESIZE < CeilPg(addr)) ==>
              Translate(t', pg) == Translate(t, pg)
    ensures forall d: Chunk :: c.Apart(d) && Untouched(t, d) ==> Untouched(t', d)
  {
    hide WellFormed;
    hide Translate;
    hide Overrides;
    hide Lacking;
    hide CeilPg;
    hide Sub64;
    hide Untouched;
    if Translate(t, Page(addr)).None? {
      ChunkUsable(t, c, BrkSize(brk, addr), c.base + c.size);
      hide Usable;
      BrkFits(brk, addr, block, t, c.base + c.size);
      forall d: Chunk | c.Apart(d) && Untouched(t, d)
        ensures Untouched(t', d)
      {
        OthersUntouched(t, t', CeilPg(brk), BrkSize(brk, addr), c.base, RWU, d);
      }
    }
  }

  /** One call. */
  method Perform(p: Proc, call: Call, c: Chunk) returns (oom: bool)
    requires p.Valid() && p.Inv() && call.Valid() && c.Valid(p.ram.Length) && Untouched(p.pt.T(), c)
    modifies p, p.pt, p.ram, p.vmas.intervals, p.vmas.intervals.data
    modifies p.freeVmas.intervals, p.freeVmas.intervals.data, call.Files()
    ensures p.Valid()
    ensures p.vmas.intervals.data == old(p.vmas.intervals.data) || fresh(p.vmas.intervals.data)
    ensures p.freeVmas.intervals.data == old(p.freeVmas.intervals.data) || fresh(p.freeVmas.intervals.data)
    ensures !oom ==> p.Inv() && Moved(old(Seen(p)), call, c, Seen(p))
    ensures NeverRefused(p) && Suits(call, c) && |old(p.pt.heap)| >= FramesFor(c) ==> !oom
    ensures |old(p.pt.heap)| <= |p.pt.heap| + FramesFor(c)
    ensures !oom ==> forall d: Chunk :: c.Apart(d) && Untouched(old(p.pt.T()), d) ==> Untouched(p.pt.T(), d)
  {
    hide Proc.Valid;
    hide Proc.Inv;
    hide Moved;
    hide Seen;
    hide Untouched;
    match call
    case Mmap(_, _, _, _, _) => oom := PerformMmap(p, call, c);
    case Munmap(_, _) => oom := PerformMunmap(p, call, c);
    case SetBrk(_) => oom := PerformBrk(p, call, c);
  }

  ghost function AllFiles(calls: seq<Call>): set<object> {
    if calls == [] then {} else AllFiles(calls[..|calls| - 1]) + calls[|calls| - 1].Files()
  }

  lemma {:induction false} FilesIn(calls: seq<Call>, i: nat)
    requires i < |calls|
    ensures calls[i].Files() <= AllFiles(calls)
  {
    if i < |calls| - 1 {
      FilesIn(calls[..|calls| - 1], i);
    }
  }

  function TotalFrames(cs: seq<Chunk>): nat {
    if cs == [] then 0 else FramesFor(cs[0]) + TotalFrames(cs[1..])
  }

  /** The chunks of the calls still to come are untouched. */
  ghost predicate ToCome(t: Tree, cs: seq<Chunk>, i: nat) {
    forall j :: i <= j < |cs| ==> Untouched(t, cs[j])
  }

  lemma Snapped(t: Tree, v: Used, f: Free, brk: nat, top: nat, ram: nat)
    requires VmOk(t, v, brk, top, ram) && Partition(v, f)
    ensures SnapOk(Snap(t, v, f, brk, top), ram)
  {
    hide VmOk;
    hide Partition;
    PartitionSum(v, f);
  }

  ghost predicate Logged(log: seq<Snap>, calls: seq<Call>, chunks: seq<Chunk>, ram: nat) {
    && 1 <= |log| <= |calls| + 1 && |chunks| == |calls|
    && (forall i :: 0 <= i < |log| ==> SnapOk(log[i], ram))
    && (forall i :: 0 <= i < |log| - 1 ==> Moved(log[i], calls[i], chunks[i], log[i + 1]))
  }

  // What a run leaves behind, address by address.

  /** Between two calls of a run, an address of the mmap area is in one interval, used or free, and can be read, written
      and run by the user exactly when it is in a used one; heap addresses below brk can be read and written. */
  lemma SeenAt(log: seq<Snap>, calls: seq<Call>, chunks: seq<Chunk>, ram: nat, i: nat, va: nat)
    requires Logged(log, calls, chunks, ram) && i < |log|
    ensures var s := log[i];
            && WellFormed(s.t)
            && (0x70_0000_0000 <= va < 0xF0_0000_0000 ==>
                  var used := exists k :: 0 <= k < |s.v| && s.v[k].start <= va < s.v[k].start + s.v[k].size;
                  var free := exists k :: 0 <= k < |s.f| && s.f[k].start <= va < s.f[k].start + s.f[k].size;
                  && used == !free && Lookup(s.t, va).valid == used
                  && (used ==> Lookup(s.t, va).perm == Perm(true, true, true, true, false)))
            && (0x1_0000_0000 <= va < s.brk ==>
                  Lookup(s.t, va).valid && Lookup(s.t, va).perm == Perm(true, true, false, true, false))
            && (Lookup(s.t, va).valid ==> Lookup(s.t, va).pa < ram)
  {
    hide Lookup;
    hide WellFormed;
    hide Synced;
    hide BrkOk;
    hide Frames;
    hide Good;
    hide InBounds;
    hide Moved;
    var s := log[i];
    assert SnapOk(s, ram);
    FrameOfByte(s.t, ram, va);
    if 0x70_0000_0000 <= va < 0xF0_0000_0000 {
      PartitionMeans(s.v, s.f, va);
      AreaLookup(s.t, s.v, va);
    }
    if 0x1_0000_0000 <= va < s.brk {
      HeapLookup(s.t, s.brk, s.top, va);
    }
  }

  lemma FrameOfByte(t: Tree, ram: nat, va: nat)
    requires Frames(t, ram)
    ensures WellFormed(t) && (Lookup(t, va).valid ==> Lookup(t, va).pa < ram)
  {
    hide WellFormed;
    hide Translate;
    hide Lookup;
    hide Find;
    LookupIsTranslation(t, va);
  }

  /** ... and no two pages share memory. */
  lemma SeenApart(log: seq<Snap>, calls: seq<Call>, chunks: seq<Chunk>, ram: nat, i: nat, va: nat, w: nat)
    requires Logged(log, calls, chunks, ram) && i < |log| && va != w
    requires va < 0x1_0000_0000_0000 && w < 0x1_0000_0000_0000
    ensures var t := log[i].t;
            WellFormed(t) && (Lookup(t, va).valid && Lookup(t, w).valid ==> Lookup(t, va).pa != Lookup(t, w).pa)
  {
    hide Moved;
    hide WellFormed;
    hide Proper;
    hide Synced;
    hide BrkOk;
    hide Partition;
    hide Lookup;
    var s := log[i];
    assert SnapOk(s, ram);
    BytesApart(s.t, ram, va, w);
  }

  lemma BytesApart(t: Tree, ram: nat, va: nat, w: nat)
    requires Frames(t, ram) && va != w && va < PAGES * PAGESIZE && w < PAGES * PAGESIZE
    ensures Lookup(t, va).valid && Lookup(t, w).valid ==> Lookup(t, va).pa != Lookup(t, w).pa
  {
    hide WellFormed;
    hide Translate;
    hide Lookup;
    hide Find;
    LookupIsTranslation(t, va);
    LookupIsTranslation(t, w);
    var p, q := va / PAGESIZE, w / PAGESIZE;
    assert Page(va) == p && Page(w) == q;
    if p != q && Translate(t, p).Some? && Translate(t, q).Some? {
      var a, b := Translate(t, p).value.pa, Translate(t, q).value.pa;
      assert if p < q then a != b else b != a;
      assert a / PAGESIZE != b / PAGESIZE;
    }
  }

  /** What a lookup gives depends on the translation of the page alone. */
  lemma SameLookup(t: Tree, t': Tree, va: nat)
    requires WellFormed(t) && WellFormed(t') && Translate(t', Page(va)) == Translate(t, Page(va))
    ensures var m, m' := Lookup(t, va), Lookup(t', va);
            m'.valid == m.valid && (m.valid ==> m'.pa == m.pa && m'.perm == m.perm)
  {
    hide WellFormed;
    hide Translate;
    hide Lookup;
    hide Find;
    LookupIsTranslation(t, va);
    LookupIsTranslation(t', va);
  }

  /** mmap takes the first free interval that is large enough, if the area does not end with it there: the chunk shows
      up in it byte by byte, and nothing else changes.  Otherwise nothing changes at all. */
  lemma MmapMoved(s: Snap, call: Call, c: Chunk, s': Snap, k: nat, va: nat)
    requires Moved(s, call, c, s') && call.Mmap? && c.base % PAGESIZE == 0 && va < 0x1_0000_0000_0000
    requires Proper(s.f) && CeilPg(call.length) <= c.size && c.base + c.size <= Arm64Vm.USER_END
    requires forall j :: 0 <= j < k && j < |s.f| ==> s.f[j].size < CeilPg(call.length)
    requires k < |s.f| ==> s.f[k].size >= CeilPg(call.length)
    ensures WellFormed(s.t) && WellFormed(s'.t) && s'.brk == s.brk
    ensures k < |s.f| && s.f[k].start + CeilPg(call.length) < 0xF0_0000_0000 ==>
              var a, size := s.f[k].start, CeilPg(call.length);
              && s'.v == s.v + [Interval(a, size, VmArea(call.prot, call.flags))]
              && var m, m' := Lookup(s.t, va), Lookup(s'.t, va);
              if a <= va < a + size then
                m'.valid && m'.pa == c.base + (va - a) && m'.perm == Perm(true, true, true, true, false)
              else m'.valid == m.valid && (m.valid ==> m'.pa == m.pa && m'.perm == m.perm)
    ensures !(k < |s.f| && s.f[k].start + CeilPg(call.length) < 0xF0_0000_0000) ==>
              s'.t == s.t && s'.v == s.v && s'.f == s.f
  {
    hide WellFormed;
    hide Translate;
    hide Lookup;
    hide Find;
    hide Spot;
    hide CeilPg;
    hide NoneMeets;
    hide Good;
    var size := CeilPg(call.length);
    if k < |s.f| {
      SpotAt(s.f, size, k);
      InBoundsAt(s.f, k);
      AlignedAt(s.f, k);
      if s.f[k].start + size < MMAP_END {
        MmapAt(s.t, s'.t, s.f[k].start, size, c.base, va);
      }
    } else {
      NoSpot(s.f, size);
    }
  }

  lemma MmapAt(t: Tree, t': Tree, a: nat, size: nat, pa: nat, va: nat)
    requires Overriding(t, t', Backing(a, size, pa, RWXU)) && va < Arm64Vm.USER_END
    requires a % PAGESIZE == 0 && size % PAGESIZE == 0 && pa % PAGESIZE == 0 && pa + size <= Arm64Vm.USER_END
    ensures var m, m' := Lookup(t, va), Lookup(t', va);
            if a <= va < a + size then
              m'.valid && m'.pa == pa + (va - a) && m'.perm == Perm(true, true, true, true, false)
            else m'.valid == m.valid && (m.valid ==> m'.pa == m.pa && m'.perm == m.perm)
  {
    hide WellFormed;
    hide Translate;
    hide Lookup;
    hide Find;
    var pg, r := va / PAGESIZE, Backing(a, size, pa, RWXU);
    assert Page(va) == pg;
    assert Translate(t', pg) == if r.Holds(pg) then r.At(pg) else Translate(t, pg);
    PageInside(a, size, va);
    assert r.Holds(pg) <==> a <= va < a + size;
    if r.Holds(pg) {
      FrameAt(pa, size, pg - r.base);
      LookupIsTranslation(t', va);
    } else {
      SameLookup(t, t', va);
    }
  }

  /** munmap of exactly one used interval takes its addresses away, and nothing else; otherwise nothing changes. */
  lemma MunmapMoved(s: Snap, call: Call, c: Chunk, s': Snap, va: nat, x: VmArea)
    requires Moved(s, call, c, s') && call.Munmap? && Aligned(s.v) && va < 0x1_0000_0000_0000
    ensures WellFormed(s.t) && WellFormed(s'.t) && s'.brk == s.brk
    ensures if exists k :: 0 <= k < |s.v| && s.v[k].start == call.start && s.v[k].size == call.size then
              && s'.f == s.f + [Interval(call.start, call.size, ())]
              && (var m, m' := Lookup(s.t, va), Lookup(s'.t, va);
                  if call.start <= va < call.start + call.size then !m'.valid
                  else m'.valid == m.valid && (m.valid ==> m'.pa == m.pa && m'.perm == m.perm))
              && ((exists i :: 0 <= i < |s'.v| && s'.v[i].start <= va < s'.v[i].start + s'.v[i].size && s'.v[i].val == x)
                  <==> !(call.start <= va < call.start + call.size)
                       && exists i :: 0 <= i < |s.v| && s.v[i].start <= va < s.v[i].start + s.v[i].size && s.v[i].val == x)
            else s'.t == s.t && s'.v == s.v && s'.f == s.f
  {
    hide WellFormed;
    hide Translate;
    hide Lookup;
    hide Find;
    hide Removed;
    if k :| 0 <= k < |s.v| && s.v[k].start == call.start && s.v[k].size == call.size {
      assert Listed(s.v, call.start, call.size);
      AlignedAt(s.v, k);
      MunmapAt(s.t, s'.t, call.start, call.size, va);
      RemovedMeans(s.v, s'.v, call.start, call.size, va, x);
    }
  }

  lemma MunmapAt(t: Tree, t': Tree, start: nat, size: nat, va: nat)
    requires WellFormed(t) && WellFormed(t') && Cleared(t, t', start / PAGESIZE, size / PAGESIZE)
    requires start % PAGESIZE == 0 && size % PAGESIZE == 0 && va < Arm64Vm.USER_END
    ensures var m, m' := Lookup(t, va), Lookup(t', va);
            if start <= va < start + size then !m'.valid
            else m'.valid == m.valid && (m.valid ==> m'.pa == m.pa && m'.perm == m.perm)
  {
    hide WellFormed;
    hide Translate;
    hide Lookup;
    hide Find;
    var pg := va / PAGESIZE;
    assert Page(va) == pg;
    PageInside(start, size, va);
    if start <= va < start + size {
      LookupIsTranslation(t', va);
    } else {
      SameLookup(t, t', va);
    }
  }

  /** brk moves to the address asked for, and no translation changes outside the pages between. */
  lemma SetBrkMoved(s: Snap, call: Call, c: Chunk, s': Snap, va: nat)
    requires Moved(s, call, c, s') && call.SetBrk? && va < 0x1_0000_0000_0000
    requires !(CeilPg(s.brk) <= va < CeilPg(call.addr))
    ensures WellFormed(s.t) && WellFormed(s'.t) && s'.v == s.v && s'.f == s.f
    ensures s'.brk == if call.addr == 0 then s.brk else call.addr
    ensures var m, m' := Lookup(s.t, va), Lookup(s'.t, va);
            m'.valid == m.valid && (m.valid ==> m'.pa == m.pa && m'.perm == m.perm)
  {
    hide WellFormed;
    hide Translate;
    hide Lookup;
    hide Find;
    hide CeilPg;
    var pg := va / PAGESIZE;
    assert Page(va) == pg;
    SameLookup(s.t, s'.t, va);
  }

  /** A run of calls.  It stops at a call that is refused memory; if the lists are never refused any, every chunk suits
      its call and there are three frames for each page, it goes through.  After every call the used and free intervals
      partition the area, conserve its size and agree with the page table. */
  method RunOn(p: Proc, calls: seq<Call>, chunks: seq<Chunk>) returns (done: nat, ghost log: seq<Snap>)
    requires p.Valid() && p.Inv() && |chunks| == |calls| && Chunks(chunks, p.ram.Length)
    requires forall i :: 0 <= i < |calls| ==> calls[i].Valid()
    requires ToCome(p.pt.T(), chunks, 0)
    modifies p, p.pt, p.ram, p.vmas.intervals, p.vmas.intervals.data
    modifies p.freeVmas.intervals, p.freeVmas.intervals.data, AllFiles(calls)
    ensures p.Valid() && done <= |calls| && |log| == done + 1 && log[0] == old(Seen(p))
    ensures Logged(log, calls, chunks, p.ram.Length)
    ensures done == |calls| ==> p.Inv() && log[done] == Seen(p)
    ensures NeverRefused(p) && AllSuit(calls, chunks) && |old(p.pt.heap)| >= TotalFrames(chunks) ==> done == |calls|
  {
    hide Logged;
    hide ToCome;
    hide AllSuit;
    hide Chunks;
    hide TotalFrames;
    hide Moved;
    hide Seen;
    hide Untouched;
    hide SnapOk;
    hide NeverRefused;
    hide Suits;
    hide FramesFor;
    hide WellFormed;
    hide Only4K;
    hide Arm64Vm.Pagetable.Valid;
    hide Arm64Vm.Pagetable.T;
    hide Proc.Inv;
    done := 0;
    log := [Seen(p)];
    SeenOk(p);
    LoggedOne(Seen(p), calls, chunks, p.ram.Length);
    assert chunks[0..] == chunks;
    while done < |calls|
      invariant 0 <= done <= |calls| && |log| == done + 1 && log[0] == old(Seen(p))
      invariant p.Valid() && p.Inv() && log[done] == Seen(p) && ToCome(p.pt.T(), chunks, done)
      invariant Logged(log, calls, chunks, p.ram.Length)
      invariant p.vmas.intervals.data == old(p.vmas.intervals.data) || fresh(p.vmas.intervals.data)
      invariant p.freeVmas.intervals.data == old(p.freeVmas.intervals.data) || fresh(p.freeVmas.intervals.data)
      invariant |old(p.pt.heap)| >= TotalFrames(chunks) ==> |p.pt.heap| >= TotalFrames(chunks[done..])
      decreases |calls| - done
    {
      ghost var t := p.pt.T();
      FilesIn(calls, done);
      FramesNext(chunks, done);
      ChunkAt(t, chunks, done, p.ram.Length);
      if AllSuit(calls, chunks) {
        SuitsAt(calls, chunks, done);
      }
      var oom := Perform(p, calls[done], chunks[done]);
      if oom {
        return;
      }
      SeenOk(p);
      StillToCome(t, p.pt.T(), chunks, done, p.ram.Length);
      LoggedNext(log, Seen(p), calls, chunks, p.ram.Length);
      log := log + [Seen(p)];
      done := done + 1;
    }
  }

  ghost predicate AllSuit(calls: seq<Call>, chunks: seq<Chunk>) {
    |chunks| == |calls| && forall i :: 0 <= i < |calls| ==> Suits(calls[i], chunks[i])
  }

  lemma SuitsAt(calls: seq<Call>, chunks: seq<Chunk>, i: nat)
    requires AllSuit(calls, chunks) && i < |calls|
    ensures Suits(calls[i], chunks[i])
  {
  }

  lemma ChunkAt(t: Tree, cs: seq<Chunk>, i: nat, ram: nat)
    requires Chunks(cs, ram) && ToCome(t, cs, i) && i < |cs|
    ensures cs[i].Valid(ram) && Untouched(t, cs[i])
  {
    hide Untouched;
  }

  lemma StillToCome(t: Tree, t': Tree, cs: seq<Chunk>, i: nat, ram: nat)
    requires Chunks(cs, ram) && ToCome(t, cs, i) && i < |cs|
    requires forall d: Chunk :: cs[i].Apart(d) && Untouched(t, d) ==> Untouched(t', d)
    ensures ToCome(t', cs, i + 1)
  {
    hide Untouched;
  }

  lemma LoggedOne(s: Snap, calls: seq<Call>, chunks: seq<Chunk>, ram: nat)
    requires SnapOk(s, ram) && |chunks| == |calls|
    ensures Logged([s], calls, chunks, ram)
  {
    hide SnapOk;
    hide Moved;
  }

  lemma LoggedNext(log: seq<Snap>, s: Snap, calls: seq<Call>, chunks: seq<Chunk>, ram: nat)
    requires Logged(log, calls, chunks, ram) && |log| <= |calls| && SnapOk(s, ram)
    requires Moved(log[|log| - 1], calls[|log| - 1], chunks[|log| - 1], s)
    ensures Logged(log + [s], calls, chunks, ram)
  {
    hide SnapOk;
    hide Moved;
  }

  lemma FramesNext(cs: seq<Chunk>, i: nat)
    requires i < |cs|
    ensures TotalFrames(cs[i..]) == FramesFor(cs[i]) + TotalFrames(cs[i + 1..])
  {
    assert cs[i..][1..] == cs[i + 1..];
  }

  lemma SeenOk(p: Proc)
    requires p.Valid() && p.Inv()
    ensures SnapOk(Seen(p), p.ram.Length)
  {
    hide WellFormed;
    hide Only4K;
    hide StartsAligned;
    hide VmOk;
    hide Partition;
    hide SnapOk;
    hide Arm64Vm.Pagetable.Valid;
    hide Arm64Vm.Pagetable.T;
    Snapped(p.pt.T(), p.V(), p.F(), p.brk, p.top, p.ram.Length);
  }

  /** A run of calls on a new process, whose program lies below the heap. */
  method Run(pt: Arm64Vm.Pagetable, ram: array<Byte>, vmaAnswers: nat -> bool, freeAnswers: nat -> bool,
             calls: seq<Call>, chunks: seq<Chunk>)
    returns (ready: bool, done: nat, ghost log: seq<Snap>)
    requires pt.Valid() && Only4K(pt.T(), PAGES) && Frames(pt.T(), ram.Length)
    requires forall pg :: BRK_BASE / PAGESIZE <= pg < PAGES ==> Translate(pt.T(), pg) == None
    requires |chunks| == |calls| && Chunks(chunks, ram.Length) && ToCome(pt.T(), chunks, 0)
    requires forall i :: 0 <= i < |calls| ==> calls[i].Valid()
    modifies pt, ram, AllFiles(calls)
    ensures freeAnswers(0) ==> ready
    ensures ready ==> done <= |calls| && |log| == done + 1 && Logged(log, calls, chunks, ram.Length)
    ensures ready && (forall i: nat :: vmaAnswers(i)) && (forall i: nat :: freeAnswers(i)) && AllSuit(calls, chunks)
            && |old(pt.heap)| >= TotalFrames(chunks)
            ==> done == |calls|
  {
    hide Only4K;
    hide Translate;
    hide Frames;
    hide Logged;
    hide ToCome;
    hide AllSuit;
    hide Chunks;
    hide TotalFrames;
    hide Seen;
    hide Proc.Inv;
    hide WellFormed;
    hide Arm64Vm.Pagetable.Valid;
    hide Arm64Vm.Pagetable.T;
    var p := new Proc(pt, ram, vmaAnswers, freeAnswers);
    ready := p.Init();
    done, log := 0, [];
    if ready {
      done, log := RunOn(p, calls, chunks);
    }
  }
}
