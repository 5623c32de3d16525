/** What the two interval lists of a process, vmas and free_vmas, say about the mmap area (rekernel/proc.d). */
module Vmas {
  import opened Base
  import opened Vectors
  import opened Intervals

  const MMAP_START: nat := 0x70_0000_0000
  const MMAP_SIZE: nat := 0x80_0000_0000
  const MMAP_END: nat := MMAP_START + MMAP_SIZE

  datatype VmArea = VmArea(prot: int, flags: int)

  type Used = seq<Interval<VmArea>>
  type Free = seq<Interval<()>>

  function Sub64(a: int, b: int): nat { (a - b) % WORD }

  lemma Sub64Is(a: int, b: int)
    requires -(WORD as int) <= a - b < WORD
    ensures Sub64(a, b) == if a < b then a - b + WORD else a - b
  {
    DivModUnique(a - b, WORD, if a < b then -1 else 0, if a < b then a - b + WORD else a - b);
  }

  ghost predicate InBounds<T>(s: seq<Interval<T>>) {
    forall i :: 0 <= i < |s| ==> MMAP_START <= s[i].start && s[i].End() <= MMAP_END
  }

  ghost predicate Aligned<T>(s: seq<Interval<T>>) {
    forall i :: 0 <= i < |s| ==> s[i].start % PAGESIZE == 0 && s[i].size % PAGESIZE == 0
  }

  ghost predicate StartsAligned<T>(s: seq<Interval<T>>) {
    forall i :: 0 <= i < |s| ==> s[i].start % PAGESIZE == 0
  }

  /** Disjoint, non-empty, page aligned intervals of the mmap area. */
  ghost predicate Proper<T>(s: seq<Interval<T>>) {
    Good(s) && InBounds(s) && Aligned(s)
  }

  /** The test of map_vma: the range ends before the area does. */
  ghost predicate InArea(start: nat, size: nat)
    ensures InArea(start, size) <==> 0x70_0000_0000 <= start && size > 0 && start + size < 0xF0_0000_0000
  {
    MMAP_START <= start && size > 0 && start + size < MMAP_END
  }

  ghost predicate NoneMeets<T>(s: seq<Interval<T>>, start: nat, size: nat) {
    forall i :: 0 <= i < |s| ==> !s[i].Overlaps(start, size)
  }

  lemma InBoundsAt<T>(s: seq<Interval<T>>, k: nat)
    requires InBounds(s) && k < |s|
    ensures MMAP_START <= s[k].start && s[k].End() <= MMAP_END
  {
  }

  lemma AlignedAt<T>(s: seq<Interval<T>>, k: nat)
    requires Aligned(s) && k < |s|
    ensures s[k].start % PAGESIZE == 0 && s[k].size % PAGESIZE == 0
  {
  }

  lemma NoEmpty<T>(s: seq<Interval<T>>)
    requires Good(s)
    ensures forall i :: 0 <= i < |s| ==> s[i].size > 0
  {
  }

  /** In a list without empty or overlapping intervals, start and size name one interval. */
  lemma SameIndex<T>(s: seq<Interval<T>>, k: nat, j: nat)
    requires Good(s) && k < |s| && j < |s| && s[k].start == s[j].start && s[k].size == s[j].size
    ensures k == j
  {
    if k != j {
      NoOther(s, k, j, s[k].start);
    }
  }

  /** An interval with exactly this start and size. */
  ghost predicate Listed<T>(s: seq<Interval<T>>, start: nat, size: nat) {
    exists k :: 0 <= k < |s| && s[k].start == start && s[k].size == size
  }

  lemma ReplacedShape<T>(s: seq<Interval<T>>, k: nat, parts: seq<Interval<T>>)
    requires k < |s| && InBounds(s) && Within(parts, s[k])
    ensures InBounds(Replaced(s, k, parts))
    ensures Aligned(s) && Aligned(parts) ==> Aligned(Replaced(s, k, parts))
  {
    hide Aligned;
    var r := RemoveAt(s, k);
    InBoundsAt(s, k);
    forall i | 0 <= i < |r|
      ensures MMAP_START <= r[i].start && r[i].End() <= MMAP_END
    {
      InBoundsAt(s, RemoveAtIndex(s, k, i));
    }
    if Aligned(s) && Aligned(parts) {
      ReplacedAligned(s, k, parts);
    }
  }

  lemma ReplacedAligned<T>(s: seq<Interval<T>>, k: nat, parts: seq<Interval<T>>)
    requires k < |s| && Aligned(s) && Aligned(parts)
    ensures Aligned(Replaced(s, k, parts))
  {
    var r := RemoveAt(s, k);
    forall i | 0 <= i < |r|
      ensures r[i].start % PAGESIZE == 0 && r[i].size % PAGESIZE == 0
    {
      AlignedAt(s, RemoveAtIndex(s, k, i));
    }
  }

  // Taking a range out of the free list.

  /** k is the first interval of f that meets the range. */
  ghost predicate FirstMeeting(f: Free, start: nat, size: nat, k: nat) {
    k < |f| && f[k].Overlaps(start, size) && forall i :: 0 <= i < k ==> !f[i].Overlaps(start, size)
  }

  /** What map_vma_no_overlap keeps of interval i before the range: 64-bit subtraction wraps. */
  function LeftOf(i: Interval<()>, start: nat): Free {
    if Sub64(start, i.start) != 0 then [Interval(i.start, Sub64(start, i.start), ())] else []
  }

  /** ... and behind it. */
  function RightOf(i: Interval<()>, start: nat, size: nat): Free {
    if Sub64(i.size, size) != 0 then [Interval(start + size, Sub64(i.size - (start - i.start), size), ())] else []
  }

  /** The free list when interval k is split. */
  function Split(f: Free, start: nat, size: nat, k: nat): Free
    requires k < |f|
  {
    Replaced(f, k, LeftOf(f[k], start) + RightOf(f[k], start, size))
  }

  /** Whatever the split makes of the sizes, page aligned starts stay aligned. */
  lemma SplitStarts(f: Free, start: nat, size: nat, k: nat)
    requires k < |f| && StartsAligned(f) && start % PAGESIZE == 0 && size % PAGESIZE == 0
    ensures StartsAligned(RemoveAt(f, k) + LeftOf(f[k], start) + RightOf(f[k], start, size))
  {
    hide Sub64;
    AlignedSum(start, size);
    var r := RemoveAt(f, k);
    forall i | 0 <= i < |r|
      ensures r[i].start % PAGESIZE == 0
    {
      assert r[i] == f[RemoveAtIndex(f, k, i)];
    }
  }

  /** The new list has exactly the free addresses outside the range. */
  ghost predicate Accounts(f: Free, f': Free, start: nat, size: nat) {
    forall a :: 0 <= a ==> (Has(f', a) <==> Has(f, a) && !(start <= a < start + size))
  }

  /** When the split is right: the range starts inside interval k and ends before it does; or it has the size of
      interval k and meets no other. */
  ghost predicate Fits(f: Free, start: nat, size: nat, k: nat)
    requires k < |f|
  {
    && f[k].start <= start
    && (f[k].size != size ==> start + size < f[k].End())
    && (f[k].size == size ==> forall j :: 0 <= j < |f| && j != k ==> !f[j].Overlaps(start, size))
  }

  /** The parts of interval i around a range, without wrap-around. */
  function Around(i: Interval<()>, start: nat, size: nat): Free
    requires i.start <= start && (i.size != size ==> start + size <= i.End())
  {
    (if start != i.start then [Interval(i.start, start - i.start, ())] else [])
    + (if i.size != size then [Interval(start + size, i.End() - (start + size), ())] else [])
  }

  lemma SplitParts(i: Interval<()>, start: nat, size: nat)
    requires i.End() < WORD && i.start <= start < i.End() && size < WORD && (i.size != size ==> start + size <= i.End())
    ensures LeftOf(i, start) + RightOf(i, start, size) == Around(i, start, size)
  {
    hide Sub64;
    Sub64Is(start, i.start);
    Sub64Is(i.size, size);
    if i.size != size {
      Sub64Is(i.size - (start - i.start), size);
    }
  }

  /** What a split covers, whatever the range. */
  lemma SplitHas(f: Free, start: nat, size: nat, k: nat, a: nat)
    requires Good(f) && k < |f|
    ensures Has(Split(f, start, size, k), a) <==>
              || (Has(f, a) && !f[k].Has(a))
              || (Sub64(start, f[k].start) != 0 && Interval(f[k].start, Sub64(start, f[k].start), ()).Has(a))
              || (Sub64(f[k].size, size) != 0
                  && Interval(start + size, Sub64(f[k].size - (start - f[k].start), size), ()).Has(a))
  {
    hide Good;
    hide Has;
    hide Sub64;
    var i := f[k];
    ReplacedHas(f, k, LeftOf(i, start) + RightOf(i, start, size), a);
    ConcatHas(LeftOf(i, start), RightOf(i, start, size), a);
    HasNone(a);
    HasOne(Interval(i.start, Sub64(start, i.start), ()), a, ());
    HasOne(Interval(start + size, Sub64(i.size - (start - i.start), size), ()), a, ());
  }

  lemma HasNone(a: nat)
    ensures !Has<()>([], a)
  {
  }

  lemma AroundGood(i: Interval<()>, start: nat, size: nat)
    requires i.start <= start < i.End() && size > 0 && (i.size != size ==> start + size < i.End())
    ensures Good(Around(i, start, size)) && Within(Around(i, start, size), i)
  {
    var c := Around(i, start, size);
    if start != i.start && i.size != size {
      assert c == [Interval(i.start, start - i.start, ()), Interval(start + size, i.End() - (start + size), ())];
    } else if i.size != size {
      assert c == [Interval(start + size, i.End() - (start + size), ())];
    } else if start != i.start {
      assert c == [Interval(i.start, start - i.start, ())];
    } else {
      assert c == [];
    }
    hide Around;
  }

  lemma AroundAligned(i: Interval<()>, start: nat, size: nat)
    requires i.start <= start && (i.size != size ==> start + size <= i.End())
    requires i.start % PAGESIZE == 0 && i.size % PAGESIZE == 0 && start % PAGESIZE == 0 && size % PAGESIZE == 0
    ensures Aligned(Around(i, start, size))
  {
    AlignedSum(start, i.start);
    AlignedSum(start, size);
    AlignedSum(i.start, i.size);
    AlignedSum(i.End(), start + size);
  }

  lemma SplitFits(f: Free, start: nat, size: nat, k: nat)
    requires Good(f) && InBounds(f) && InArea(start, size) && FirstMeeting(f, start, size, k) && Fits(f, start, size, k)
    ensures Good(Split(f, start, size, k)) && InBounds(Split(f, start, size, k))
    ensures Aligned(f) && start % PAGESIZE == 0 && size % PAGESIZE == 0 ==> Aligned(Split(f, start, size, k))
  {
    hide Good;
    hide InBounds;
    hide Aligned;
    var i := f[k];
    InBoundsAt(f, k);
    SplitParts(i, start, size);
    AroundGood(i, start, size);
    hide Around;
    ReplacedGood(f, k, Around(i, start, size));
    ReplacedShape(f, k, Around(i, start, size));
    if Aligned(f) && start % PAGESIZE == 0 && size % PAGESIZE == 0 {
      AlignedAt(f, k);
      AroundAligned(i, start, size);
    }
  }

  lemma SplitAccounts(f: Free, start: nat, size: nat, k: nat)
    requires Good(f) && InBounds(f) && InArea(start, size) && FirstMeeting(f, start, size, k) && Fits(f, start, size, k)
    ensures Accounts(f, Split(f, start, size, k), start, size)
  {
    hide Good;
    hide Split;
    hide Has;
    hide Sub64;
    hide InBounds;
    var i := f[k];
    InBoundsAt(f, k);
    Sub64Is(start, i.start);
    Sub64Is(i.size, size);
    if i.size != size {
      Sub64Is(i.size - (start - i.start), size);
    }
    forall a | 0 <= a
      ensures Has(Split(f, start, size, k), a) <==> Has(f, a) && !(start <= a < start + size)
    {
      SplitHas(f, start, size, k, a);
      if i.Has(a) {
        HasAt(f, k, a);
      } else if Has(f, a) && start <= a < start + size {
        HasSome(f, start, size, k, a);
      }
    }
  }

  /** A range of the size of interval k that meets no other has no free address outside it. */
  lemma HasSome(f: Free, start: nat, size: nat, k: nat, a: nat)
    requires k < |f| && Fits(f, start, size, k) && Has(f, a) && start <= a < start + size
    ensures f[k].Has(a)
  {
    var j :| 0 <= j < |f| && f[j].Has(a);
    assert f[j].Overlaps(start, size);
  }

  /** A split that is not right leaves an empty interval or counts the wrong addresses as free. */
  lemma SplitMisfits(f: Free, start: nat, size: nat, k: nat)
    requires Good(f) && InBounds(f) && InArea(start, size) && FirstMeeting(f, start, size, k) && !Fits(f, start, size, k)
    ensures !(Good(Split(f, start, size, k)) && Accounts(f, Split(f, start, size, k), start, size))
  {
    hide Has;
    hide Sub64;
    var i, f' := f[k], Split(f, start, size, k);
    InBoundsAt(f, k);
    Sub64Is(start, i.start);
    Sub64Is(i.size, size);
    Sub64Is(i.size - (start - i.start), size);
    if start < i.start {
      SplitHas(f, start, size, k, i.start);
      assert Has(f', i.start) && start <= i.start < start + size;
    } else if i.size != size {
      var right := Interval(start + size, Sub64(i.size - (start - i.start), size), ());
      assert f'[|f'| - 1] == right;
      if start + size > i.End() {
        SplitHas(f, start, size, k, MMAP_END);
        NotBeyond(f, MMAP_END);
        assert Has(f', MMAP_END);
      } else {
        assert right.size == 0;
      }
    } else {
      var j :| 0 <= j < |f| && j != k && f[j].Overlaps(start, size);
      var a := if f[j].start < start then start else f[j].start;
      SplitHas(f, start, size, k, a);
      NoOther(f, j, k, a);
      HasAt(f, j, a);
      assert Has(f', a) && start <= a < start + size;
    }
  }

  lemma NotBeyond<T>(s: seq<Interval<T>>, a: nat)
    requires InBounds(s) && !(MMAP_START <= a < MMAP_END)
    ensures !Has(s, a)
  {
  }

  /** Splitting keeps the free list in order, and right about every address, exactly when the range fits. */
  lemma SplitExact(f: Free, start: nat, size: nat, k: nat)
    requires Good(f) && InBounds(f) && InArea(start, size) && FirstMeeting(f, start, size, k)
    ensures Good(Split(f, start, size, k)) && Accounts(f, Split(f, start, size, k), start, size)
            <==> Fits(f, start, size, k)
  {
    hide Good;
    hide InBounds;
    hide Split;
    hide Accounts;
    hide Fits;
    if Fits(f, start, size, k) {
      SplitFits(f, start, size, k);
      SplitAccounts(f, start, size, k);
    } else {
      SplitMisfits(f, start, size, k);
    }
  }

  /** A free list on which a fixed mapping goes wrong: two pages were mapped and unmapped, and now the second of them
      is mapped alone.  The split leaves an empty interval. */
  lemma SplitGoesWrong()
    ensures var a := Interval(MMAP_START, 2 * PAGESIZE, ());
            var rest := Interval(MMAP_START + 2 * PAGESIZE, MMAP_SIZE - 2 * PAGESIZE, ());
            var f := [rest, a];
            var start := MMAP_START + PAGESIZE;
            && Partition([], f) && FirstMeeting(f, start, PAGESIZE, 1) && !Fits(f, start, PAGESIZE, 1)
            && Split(f, start, PAGESIZE, 1) == [rest, Interval(MMAP_START, PAGESIZE, ()), Interval(start + PAGESIZE, 0, ())]
            && !Good(Split(f, start, PAGESIZE, 1))
  {
    var a := Interval(MMAP_START, 2 * PAGESIZE, ());
    var rest := Interval(MMAP_START + 2 * PAGESIZE, MMAP_SIZE - 2 * PAGESIZE, ());
    var f := [rest, a];
    var start := MMAP_START + PAGESIZE;
    forall x | MMAP_START <= x < MMAP_END
      ensures Has(f, x)
    {
      HasAt(f, if x < MMAP_START + 2 * PAGESIZE then 1 else 0, x);
    }
    Sub64Is(start, a.start);
    Sub64Is(a.size, PAGESIZE);
    Sub64Is(a.size - (start - a.start), PAGESIZE);
    var s := Split(f, start, PAGESIZE, 1);
    assert RemoveAt(f, 1) == [rest];
    assert s == [rest, Interval(MMAP_START, PAGESIZE, ()), Interval(start + PAGESIZE, 0, ())];
    assert s[2].size == 0;
  }

  /** The free list after a range was taken out of it. */
  ghost predicate FreeTaken(f: Free, f': Free, start: nat, size: nat) {
    && (forall k :: 0 <= k && FirstMeeting(f, start, size, k) ==> f' == Split(f, start, size, k))
    && (NoneMeets(f, start, size) ==> f' == f)
  }

  /** Taking the range out of the free list goes right. */
  ghost predicate SplitsWell(f: Free, start: nat, size: nat) {
    forall k :: 0 <= k && FirstMeeting(f, start, size, k) ==> Fits(f, start, size, k)
  }

  lemma OneMeeting(f: Free, start: nat, size: nat, k: nat, j: nat)
    requires FirstMeeting(f, start, size, k) && FirstMeeting(f, start, size, j)
    ensures k == j
  {
  }

  lemma TakenAt(f: Free, start: nat, size: nat, k: nat)
    requires FirstMeeting(f, start, size, k)
    ensures FreeTaken(f, Split(f, start, size, k), start, size)
    ensures SplitsWell(f, start, size) <==> Fits(f, start, size, k)
  {
    hide Split;
    hide Fits;
    forall j: nat | FirstMeeting(f, start, size, j)
      ensures j == k
    {
      OneMeeting(f, start, size, k, j);
    }
  }

  lemma {:induction false} MeetingOrNone(f: Free, start: nat, size: nat, n: nat) returns (k: nat)
    requires n <= |f|
    ensures k < n ==> FirstMeeting(f, start, size, k)
    ensures k >= n ==> forall i :: 0 <= i < n ==> !f[i].Overlaps(start, size)
  {
    if n == 0 {
      return 0;
    }
    k := MeetingOrNone(f, start, size, n - 1);
    if k >= n - 1 {
      k := if f[n - 1].Overlaps(start, size) then n - 1 else n;
    }
  }

  // The partition of the mmap area.

  /** Used and free intervals together make up the mmap area, byte by byte. */
  ghost predicate Partition(v: Used, f: Free) {
    && Proper(v) && Proper(f)
    && (forall a :: MMAP_START <= a < MMAP_END ==> (Has(v, a) <==> !Has(f, a)))
  }

  /** Every address of the mmap area, and no other, lies in one interval of the two lists: used or free. */
  lemma PartitionMeans(v: Used, f: Free, a: nat)
    requires Partition(v, f)
    ensures var used := exists i :: 0 <= i < |v| && v[i].start <= a < v[i].start + v[i].size;
            var free := exists i :: 0 <= i < |f| && f[i].start <= a < f[i].start + f[i].size;
            !(used && free) && (used || free <==> 0x70_0000_0000 <= a < 0xF0_0000_0000)
    ensures forall i, j :: 0 <= i < |v| && 0 <= j < |v| && i != j ==> !(v[i].Has(a) && v[j].Has(a))
    ensures forall i, j :: 0 <= i < |f| && 0 <= j < |f| && i != j ==> !(f[i].Has(a) && f[j].Has(a))
  {
    HasMeans(v, a);
    HasMeans(f, a);
    if !(MMAP_START <= a < MMAP_END) {
      NotBeyond(v, a);
      NotBeyond(f, a);
    }
    hide Has;
    hide InBounds;
    hide Aligned;
    forall i, j | 0 <= i < |v| && 0 <= j < |v| && i != j
      ensures !(v[i].Has(a) && v[j].Has(a))
    {
      assert if i < j then Apart(v[i], v[j]) else Apart(v[j], v[i]);
    }
    forall i, j | 0 <= i < |f| && 0 <= j < |f| && i != j
      ensures !(f[i].Has(a) && f[j].Has(a))
    {
      assert if i < j then Apart(f[i], f[j]) else Apart(f[j], f[i]);
    }
  }

  lemma PartitionStart()
    ensures Partition([], [Interval(MMAP_START, MMAP_SIZE, ())])
  {
    var f := [Interval(MMAP_START, MMAP_SIZE, ())];
    forall a | MMAP_START <= a < MMAP_END
      ensures Has(f, a)
    {
      HasAt(f, 0, a);
    }
  }

  ghost predicate Between(lo: nat, a: nat, hi: nat) { lo <= a < hi }

  ghost function Range(lo: nat, hi: nat): set<nat> {
    set a: nat | lo <= a < hi && Between(lo, a, hi)
  }

  lemma {:induction false} RangeCount(lo: nat, hi: nat)
    requires lo <= hi
    ensures |Range(lo, hi)| == hi - lo
    decreases hi - lo
  {
    if lo == hi {
      assert Range(lo, hi) == {};
    } else {
      RangeCount(lo, hi - 1);
      assert Range(lo, hi) == Range(lo, hi - 1) + {hi - 1};
    }
  }

  ghost function Addresses<T>(s: seq<Interval<T>>): set<nat> {
    set a | a in Range(MMAP_START, MMAP_END) && Has(s, a)
  }

  /** One interval more, apart from the others, has its addresses more. */
  lemma AddressesNext<T>(r: seq<Interval<T>>, x: Interval<T>)
    requires Good(r + [x]) && MMAP_START <= x.start && x.End() <= MMAP_END
    ensures Addresses(r + [x]) == Addresses(r) + Range(x.start, x.End())
    ensures Addresses(r) !! Range(x.start, x.End())
  {
    hide Good;
    var s := r + [x];
    forall a: nat
      ensures Has(s, a) <==> Has(r, a) || Between(x.start, a, x.End())
      ensures x.Has(a) ==> !Has(r, a)
    {
      ConcatHas(r, [x], a);
      HasOne(x, a, x.val);
      if x.Has(a) {
        forall i | 0 <= i < |r|
          ensures !r[i].Has(a)
        {
          NoOther(s, |r|, i, a);
        }
      }
    }
    hide Has;
  }

  /** Disjoint intervals have as many addresses as their sizes say. */
  lemma {:induction false} SumCounts<T>(s: seq<Interval<T>>)
    requires Good(s) && InBounds(s)
    ensures Sum(s) == |Addresses(s)|
  {
    if s == [] {
      assert Addresses(s) == {};
    } else {
      var n := |s| - 1;
      var r, x := s[..n], s[n];
      SumCounts(r);
      InBoundsAt(s, n);
      assert s == r + [x];
      hide InBounds;
      hide Good;
      hide Addresses;
      hide Range;
      RangeCount(x.start, x.End());
      AddressesNext(r, x);
    }
  }

  /** Conservation: the sizes of used and free intervals sum to the size of the area. */
  lemma PartitionSum(v: Used, f: Free)
    requires Partition(v, f)
    ensures Sum(v) + Sum(f) == MMAP_SIZE
  {
    SumCounts(v);
    SumCounts(f);
    RangeCount(MMAP_START, MMAP_END);
    hide Good;
    hide InBounds;
    hide Aligned;
    hide Has;
    assert Addresses(v) + Addresses(f) == Range(MMAP_START, MMAP_END);
    assert Addresses(v) !! Addresses(f);
  }

  /** No used interval meets the start of a free interval, and that free interval is the only free one there. */
  lemma FreeIsClear(v: Used, f: Free, size: nat, k: nat)
    requires Partition(v, f) && k < |f| && 0 < size <= f[k].size
    ensures NoneMeets(v, f[k].start, size) && FirstMeeting(f, f[k].start, size, k)
    ensures f[k].start + size < MMAP_END ==> SplitsWell(f, f[k].start, size)
  {
    hide Aligned;
    hide Has;
    var start := f[k].start;
    InBoundsAt(f, k);
    forall i | 0 <= i < |v|
      ensures !v[i].Overlaps(start, size)
    {
      var a := if v[i].start < start then start else v[i].start;
      if v[i].Overlaps(start, size) {
        HasAt(v, i, a);
        HasAt(f, k, a);
      }
    }
    forall i | 0 <= i < |f| && i != k
      ensures !f[i].Overlaps(start, size)
    {
      ApartAt(f, i, k);
    }
    TakenAt(f, start, size, k);
  }

  /** Unmapping exactly one used interval keeps the partition. */
  lemma PartitionUnmap(v: Used, f: Free, k: nat)
    requires Partition(v, f) && k < |v|
    ensures Partition(RemoveAt(v, k), f + [Interval(v[k].start, v[k].size, ())])
  {
    hide Has;
    var x := Interval(v[k].start, v[k].size, ());
    ReplacedShape(v, k, []);
    RemoveAtGood(v, k);
    assert RemoveAt(v, k) + [] == RemoveAt(v, k);
    forall i, j | 0 <= i < |f| && 0 <= j < |[x]|
      ensures Apart(f[i], [x][j])
    {
      var a := if f[i].start < x.start then x.start else f[i].start;
      if !Apart(f[i], x) {
        HasAt(f, i, a);
        HasAt(v, k, a);
      }
    }
    ConcatGood(f, [x]);
    forall a | MMAP_START <= a < MMAP_END
      ensures Has(RemoveAt(v, k), a) <==> !Has(f + [x], a)
    {
      RemoveAtHas(v, k, a);
      ConcatHas(f, [x], a);
      HasOne(x, a, ());
      if v[k].Has(a) {
        HasAt(v, k, a);
      }
    }
  }

  // Fixed mappings.

  /** What is left of a used interval when a range is cut out of it. */
  function Cut(v: Interval<VmArea>, start: nat, size: nat): Used {
    (if v.start < start then [Interval(v.start, start - v.start, v.val)] else [])
    + (if v.End() > start + size then [Interval(start + size, v.End() - (start + size), v.val)] else [])
  }

  /** What the loop of map_vma makes of interval k. */
  function Punched(s: Used, k: nat, start: nat, size: nat): Used
    requires k < |s|
  {
    Replaced(s, k, Cut(s[k], start, size))
  }

  lemma CutGood(v: Interval<VmArea>, start: nat, size: nat)
    requires v.Overlaps(start, size)
    ensures Good(Cut(v, start, size)) && Within(Cut(v, start, size), v)
  {
    var c := Cut(v, start, size);
    if v.start < start && v.End() > start + size {
      assert c == [Interval(v.start, start - v.start, v.val), Interval(start + size, v.End() - (start + size), v.val)];
    } else if v.End() > start + size {
      assert c == [Interval(start + size, v.End() - (start + size), v.val)];
    } else if v.start < start {
      assert c == [Interval(v.start, start - v.start, v.val)];
    } else {
      assert c == [];
    }
    hide Cut;
  }

  lemma CutAligned(v: Interval<VmArea>, start: nat, size: nat)
    requires v.start % PAGESIZE == 0 && v.size % PAGESIZE == 0 && start % PAGESIZE == 0 && size % PAGESIZE == 0
    ensures Aligned(Cut(v, start, size))
  {
    AlignedSum(start, v.start);
    AlignedSum(start, size);
    AlignedSum(v.start, v.size);
    AlignedSum(v.End(), start + size);
  }

  lemma CutHolds(v: Interval<VmArea>, start: nat, size: nat, a: nat, area: VmArea)
    requires v.Overlaps(start, size)
    ensures Holds(Cut(v, start, size), a, area) <==> v.Has(a) && !(start <= a < start + size) && v.val == area
  {
    var left := Interval(v.start, if v.start < start then start - v.start else 0, v.val);
    var right := Interval(start + size, if v.End() > start + size then v.End() - (start + size) else 0, v.val);
    var l, r := if v.start < start then [left] else [], if v.End() > start + size then [right] else [];
    ConcatHolds(l, r, a, area);
    HasOne(left, a, area);
    HasOne(right, a, area);
    assert !Holds<VmArea>([], a, area);
    hide Holds;
  }

  lemma CutMeets(v: Interval<VmArea>, start: nat, size: nat)
    requires v.Overlaps(start, size)
    ensures Meeting(Cut(v, start, size), start, size) == 0
  {
    var c := Cut(v, start, size);
    MeetingNone(c, start, size);
  }

  lemma {:induction false} MeetingNone<T>(s: seq<Interval<T>>, start: nat, size: nat)
    requires NoneMeets(s, start, size)
    ensures Meeting(s, start, size) == 0
  {
    if s != [] {
      MeetingNone(s[..|s| - 1], start, size);
    }
  }

  lemma PunchedGood(s: Used, k: nat, start: nat, size: nat)
    requires Good(s) && k < |s| && s[k].Overlaps(start, size)
    ensures Good(Punched(s, k, start, size))
    ensures InBounds(s) ==> InBounds(Punched(s, k, start, size))
    ensures Proper(s) && start % PAGESIZE == 0 && size % PAGESIZE == 0 ==> Proper(Punched(s, k, start, size))
  {
    hide Good;
    hide InBounds;
    hide Aligned;
    hide Cut;
    hide Holds;
    CutGood(s[k], start, size);
    ReplacedGood(s, k, Cut(s[k], start, size));
    if InBounds(s) {
      ReplacedShape(s, k, Cut(s[k], start, size));
    }
    if Aligned(s) && start % PAGESIZE == 0 && size % PAGESIZE == 0 {
      AlignedAt(s, k);
      CutAligned(s[k], start, size);
    }
  }

  /** Cutting the range out of one interval keeps every address outside the range where it was. */
  lemma PunchedHolds(s: Used, k: nat, start: nat, size: nat, a: nat, area: VmArea)
    requires Good(s) && k < |s| && s[k].Overlaps(start, size)
    ensures !(start <= a < start + size) ==> (Holds(Punched(s, k, start, size), a, area) <==> Holds(s, a, area))
  {
    hide Good;
    hide Holds;
    hide Cut;
    CutHolds(s[k], start, size, a, area);
    ReplacedHolds(s, k, Cut(s[k], start, size), a, area);
    if s[k].Has(a) {
      HoldsOnly(s, k, a, area);
    }
  }

  /** The number of intervals that meet the range falls, so the cutting loop ends. */
  lemma PunchedMeeting(s: Used, k: nat, start: nat, size: nat)
    requires k < |s| && s[k].Overlaps(start, size)
    ensures Meeting(Punched(s, k, start, size), start, size) == Meeting(s, start, size) - 1
  {
    hide Meeting;
    hide Cut;
    CutMeets(s[k], start, size);
    ReplacedMeeting(s, k, Cut(s[k], start, size), start, size);
  }

  /** Outside a range, two lists give every address the same area or none. */
  ghost predicate SameOutside(s: Used, s': Used, start: nat, size: nat) {
    forall a, area :: 0 <= a && !(start <= a < start + size) ==> (Holds(s', a, area) <==> Holds(s, a, area))
  }

  lemma SameOutsideRefl(s: Used, start: nat, size: nat)
    ensures SameOutside(s, s, start, size)
  {
  }

  lemma PunchedSame(s0: Used, s: Used, k: nat, start: nat, size: nat)
    requires Good(s) && k < |s| && s[k].Overlaps(start, size) && SameOutside(s0, s, start, size)
    ensures SameOutside(s0, Punched(s, k, start, size), start, size)
  {
    hide Good;
    hide Holds;
    hide Punched;
    forall a: nat, area | !(start <= a < start + size)
      ensures Holds(Punched(s, k, start, size), a, area) <==> Holds(s0, a, area)
    {
      PunchedHolds(s, k, start, size, a, area);
    }
  }

  /** s' gives the addresses of a range one area, and all others what s gives them. */
  ghost predicate Overridden(s: Used, s': Used, start: nat, size: nat, area: VmArea) {
    && SameOutside(s, s', start, size)
    && forall a, x :: start <= a < start + size ==> (Holds(s', a, x) <==> x == area)
  }

  /** Address by address: inside the range the new area and no other, outside what was there. */
  lemma OverriddenMeans(s: Used, s': Used, start: nat, size: nat, area: VmArea, a: nat, x: VmArea)
    requires Overridden(s, s', start, size, area)
    ensures (exists i :: 0 <= i < |s'| && s'[i].start <= a < s'[i].start + s'[i].size && s'[i].val == x)
            <==> if start <= a < start + size then x == area
                 else exists i :: 0 <= i < |s| && s[i].start <= a < s[i].start + s[i].size && s[i].val == x
  {
    HoldsMeans(s, a, x);
    HoldsMeans(s', a, x);
    hide Holds;
  }

  lemma AppendOverrides(s0: Used, s: Used, x: Interval<VmArea>)
    requires Good(s) && NoneMeets(s, x.start, x.size) && x.size > 0 && SameOutside(s0, s, x.start, x.size)
    ensures Good(s + [x]) && Overridden(s0, s + [x], x.start, x.size, x.val)
    ensures InBounds(s) && InArea(x.start, x.size) ==> InBounds(s + [x])
    ensures Aligned(s) && x.start % PAGESIZE == 0 && x.size % PAGESIZE == 0 ==> Aligned(s + [x])
  {
    hide Holds;
    AppendGood(s, x);
    forall a: nat, area
      ensures !(x.start <= a < x.start + x.size) ==> (Holds(s + [x], a, area) <==> Holds(s0, a, area))
      ensures x.start <= a < x.start + x.size ==> (Holds(s + [x], a, area) <==> area == x.val)
    {
      ConcatHolds(s, [x], a, area);
      HasOne(x, a, area);
      if x.Has(a) {
        NotHeld(s, x.start, x.size, a, area);
      }
    }
  }

  lemma AppendGood(s: Used, x: Interval<VmArea>)
    requires Good(s) && NoneMeets(s, x.start, x.size) && x.size > 0
    ensures Good(s + [x])
  {
    forall i | 0 <= i < |s|
      ensures Apart(s[i], x)
    {
      assert !s[i].Overlaps(x.start, x.size);
    }
    ConcatGood(s, [x]);
  }

  lemma NotHeld(s: Used, start: nat, size: nat, a: nat, area: VmArea)
    requires NoneMeets(s, start, size) && start <= a < start + size
    ensures !Holds(s, a, area)
  {
    forall i | 0 <= i < |s|
      ensures !s[i].Has(a)
    {
      assert !s[i].Overlaps(start, size);
    }
  }

  /** Seen as a set of addresses, an overridden list gains the range. */
  lemma OverriddenHas(s: Used, s': Used, start: nat, size: nat, area: VmArea, a: nat)
    requires Overridden(s, s', start, size, area)
    ensures Has(s', a) <==> Has(s, a) || start <= a < start + size
  {
    if Has(s', a) {
      var i :| 0 <= i < |s'| && s'[i].Has(a);
      assert Holds(s', a, s'[i].val);
    }
    if Has(s, a) {
      var i :| 0 <= i < |s| && s[i].Has(a);
      assert Holds(s, a, s[i].val);
    }
    assert start <= a < start + size ==> Holds(s', a, area);
  }

  /** A fixed mapping keeps the partition if and only if taking its range out of the free list goes right. */
  lemma PartitionFixed(v: Used, v': Used, f: Free, f': Free, start: nat, size: nat, area: VmArea)
    requires Partition(v, f) && Proper(v') && Overridden(v, v', start, size, area) && FreeTaken(f, f', start, size)
    requires InArea(start, size) && start % PAGESIZE == 0 && size % PAGESIZE == 0
    ensures Partition(v', f') <==> SplitsWell(f, start, size)
  {
    hide Good;
    hide InBounds;
    hide Aligned;
    hide Has;
    hide Split;
    hide Fits;
    hide Overridden;
    forall a: nat
      ensures Has(v', a) <==> Has(v, a) || start <= a < start + size
    {
      OverriddenHas(v, v', start, size, area, a);
    }
    var k := MeetingOrNone(f, start, size, |f|);
    if k < |f| {
      TakenAt(f, start, size, k);
      SplitExact(f, start, size, k);
      if Fits(f, start, size, k) {
        SplitFits(f, start, size, k);
      } else if Partition(v', f') {
        PartitionAccounts(v, v', f, f', start, size);
      }
    } else {
      AllUsed(f, start, size);
    }
  }

  lemma AllUsed(f: Free, start: nat, size: nat)
    requires NoneMeets(f, start, size)
    ensures forall a :: start <= a < start + size ==> !Has(f, a)
    ensures SplitsWell(f, start, size)
  {
    hide Fits;
    forall a, i | start <= a < start + size && 0 <= i < |f|
      ensures !f[i].Has(a)
    {
      assert !f[i].Overlaps(start, size);
    }
  }

  lemma PartitionAccounts(v: Used, v': Used, f: Free, f': Free, start: nat, size: nat)
    requires Partition(v, f) && Partition(v', f') && InArea(start, size)
    requires forall a: nat :: Has(v', a) <==> Has(v, a) || start <= a < start + size
    ensures Accounts(f, f', start, size)
  {
    hide Good;
    hide Aligned;
    hide InBounds;
    hide Has;
    forall a: nat
      ensures Has(f', a) <==> Has(f, a) && !(start <= a < start + size)
    {
      if !(MMAP_START <= a < MMAP_END) {
        NotBeyond(f, a);
        NotBeyond(f', a);
      }
    }
  }
}
