/** The interval set of rekernel/core/interval.d: an unordered vector of intervals. */
module Intervals {
  import opened Base
  import opened Vectors

  datatype Interval<T> = Interval(start: nat, size: nat, val: T)
  {
    predicate Overlaps(start': nat, size': nat) {
      start < start' + size' && start + size > start'
    }

    predicate Has(a: nat) { start <= a < start + size }

    function End(): nat { start + size }
  }

  // What a list of intervals says about addresses.

  ghost predicate Has<T>(s: seq<Interval<T>>, a: nat) {
    exists i :: 0 <= i < |s| && s[i].Has(a)
  }

  /** Address a is in an interval with value v. */
  ghost predicate Holds<T>(s: seq<Interval<T>>, a: nat, v: T) {
    exists i :: 0 <= i < |s| && s[i].Has(a) && s[i].val == v
  }

  ghost predicate Apart<T, U>(x: Interval<T>, y: Interval<U>) {
    x.End() <= y.start || y.End() <= x.start
  }

  /** No interval is empty and no two intersect. */
  ghost predicate Good<T>(s: seq<Interval<T>>) {
    && (forall i :: 0 <= i < |s| ==> s[i].size > 0)
    && (forall i, j :: 0 <= i < j < |s| ==> Apart(s[i], s[j]))
  }

  ghost function Sum<T>(s: seq<Interval<T>>): nat {
    if s == [] then 0 else Sum(s[..|s| - 1]) + s[|s| - 1].size
  }

  /** How many intervals meet a range. */
  ghost function Meeting<T>(s: seq<Interval<T>>, start: nat, size: nat): nat {
    if s == [] then 0
    else Meeting(s[..|s| - 1], start, size) + if s[|s| - 1].Overlaps(start, size) then 1 else 0
  }

  lemma HasMeans<T>(s: seq<Interval<T>>, a: nat)
    ensures Has(s, a) <==> exists i :: 0 <= i < |s| && s[i].start <= a < s[i].start + s[i].size
  {
    if i :| 0 <= i < |s| && s[i].start <= a < s[i].start + s[i].size {
      assert s[i].Has(a);
    }
  }

  lemma HoldsMeans<T>(s: seq<Interval<T>>, a: nat, v: T)
    ensures Holds(s, a, v) <==> exists i :: 0 <= i < |s| && s[i].start <= a < s[i].start + s[i].size && s[i].val == v
  {
    if i :| 0 <= i < |s| && s[i].start <= a < s[i].start + s[i].size && s[i].val == v {
      assert s[i].Has(a);
    }
  }

  /** Two intervals that are not empty overlap if and only if they have an address in common. */
  lemma OverlapsMeans<T>(x: Interval<T>, start: nat, size: nat)
    requires x.size > 0 && size > 0
    ensures x.Overlaps(start, size) <==> exists a: nat :: start <= a < start + size && x.Has(a)
  {
    if x.Overlaps(start, size) {
      assert x.Has(if x.start < start then start else x.start);
    }
  }

  // Lists put together.

  lemma ConcatHas<T>(s: seq<Interval<T>>, r: seq<Interval<T>>, a: nat)
    ensures Has(s + r, a) <==> Has(s, a) || Has(r, a)
  {
    var c := s + r;
    if Has(s, a) {
      var i :| 0 <= i < |s| && s[i].Has(a);
      assert c[i].Has(a);
    }
    if Has(r, a) {
      var i :| 0 <= i < |r| && r[i].Has(a);
      assert c[|s| + i].Has(a);
    }
  }

  lemma ConcatHolds<T>(s: seq<Interval<T>>, r: seq<Interval<T>>, a: nat, v: T)
    ensures Holds(s + r, a, v) <==> Holds(s, a, v) || Holds(r, a, v)
  {
    var c := s + r;
    if Holds(s, a, v) {
      var i :| 0 <= i < |s| && s[i].Has(a) && s[i].val == v;
      assert c[i].Has(a) && c[i].val == v;
    }
    if Holds(r, a, v) {
      var i :| 0 <= i < |r| && r[i].Has(a) && r[i].val == v;
      assert c[|s| + i].Has(a) && c[|s| + i].val == v;
    }
  }

  ghost predicate AllApart<T, U>(s: seq<Interval<T>>, r: seq<Interval<U>>) {
    forall i, j :: 0 <= i < |s| && 0 <= j < |r| ==> Apart(s[i], r[j])
  }

  lemma ConcatGood<T>(s: seq<Interval<T>>, r: seq<Interval<T>>)
    requires Good(s) && Good(r) && AllApart(s, r)
    ensures Good(s + r)
  {
    hide Apart;
    var c := s + r;
    forall i, j | 0 <= i < j < |c|
      ensures Apart(c[i], c[j])
    {
      if j < |s| {
        assert Apart(s[i], s[j]);
      } else if i < |s| {
        assert Apart(s[i], r[j - |s|]);
      } else {
        assert Apart(r[i - |s|], r[j - |s|]);
      }
    }
  }

  lemma {:induction false} ConcatMeeting<T>(s: seq<Interval<T>>, r: seq<Interval<T>>, start: nat, size: nat)
    ensures Meeting(s + r, start, size) == Meeting(s, start, size) + Meeting(r, start, size)
  {
    if r == [] {
      assert s + r == s;
    } else {
      var n := |r| - 1;
      assert (s + r)[..|s| + n] == s + r[..n];
      ConcatMeeting(s, r[..n], start, size);
    }
  }

  lemma HasOne<T>(x: Interval<T>, a: nat, v: T)
    ensures Has([x], a) <==> x.Has(a)
    ensures Holds([x], a, v) <==> x.Has(a) && x.val == v
  {
    assert [x][0] == x;
  }

  lemma HasAt<T>(s: seq<Interval<T>>, k: nat, a: nat)
    requires k < |s| && s[k].Has(a)
    ensures Has(s, a) && Holds(s, a, s[k].val)
  {
  }

  /** No other interval has the addresses of interval k. */
  lemma NoOther<T>(s: seq<Interval<T>>, k: nat, j: nat, a: nat)
    requires Good(s) && k < |s| && j < |s| && j != k && s[k].Has(a)
    ensures !s[j].Has(a)
  {
    assert if j < k then Apart(s[j], s[k]) else Apart(s[k], s[j]);
  }

  /** At an address of interval k, the value is that of interval k. */
  lemma HoldsOnly<T>(s: seq<Interval<T>>, k: nat, a: nat, v: T)
    requires Good(s) && k < |s| && s[k].Has(a)
    ensures Holds(s, a, v) <==> s[k].val == v
  {
    if Holds(s, a, v) {
      var j :| 0 <= j < |s| && s[j].Has(a) && s[j].val == v;
      if j != k {
        NoOther(s, k, j, a);
      }
    }
  }

  // One interval taken out, or replaced by parts of it.

  lemma RemoveAtGood<T>(s: seq<Interval<T>>, k: nat)
    requires Good(s) && k < |s|
    ensures Good(RemoveAt(s, k))
  {
    hide Apart;
    var r := RemoveAt(s, k);
    forall i, j | 0 <= i < j < |r|
      ensures Apart(r[i], r[j])
    {
      var i', j' := RemoveAtIndex(s, k, i), RemoveAtIndex(s, k, j);
      ApartAt(s, i', j');
    }
  }

  lemma ApartAt<T>(s: seq<Interval<T>>, i: nat, j: nat)
    requires Good(s) && i < |s| && j < |s| && i != j
    ensures Apart(s[i], s[j])
  {
    assert if i < j then Apart(s[i], s[j]) else Apart(s[j], s[i]);
  }

  /** The index in the list before of an element that is left. */
  function RemoveAtIndex<T>(s: seq<T>, k: nat, i: nat): (j: nat)
    requires k < |s| && i < |s| - 1
    ensures j < |s| && j != k && RemoveAt(s, k)[i] == s[j] && (j == i || j == |s| - 1)
    ensures i == k <==> j == |s| - 1
  {
    if i == k then |s| - 1 else i
  }

  lemma RemoveAtHas<T>(s: seq<Interval<T>>, k: nat, a: nat)
    requires Good(s) && k < |s|
    ensures Has(RemoveAt(s, k), a) <==> Has(s, a) && !s[k].Has(a)
  {
    hide Good;
    var r := RemoveAt(s, k);
    if Has(r, a) {
      var i :| 0 <= i < |r| && r[i].Has(a);
      var j := RemoveAtIndex(s, k, i);
      NoOther(s, j, k, a);
    }
    if Has(s, a) && !s[k].Has(a) {
      var j :| 0 <= j < |s| && s[j].Has(a);
      assert r[if j == |s| - 1 then k else j] == s[j];
    }
  }

  lemma RemoveAtHolds<T>(s: seq<Interval<T>>, k: nat, a: nat, v: T)
    requires Good(s) && k < |s|
    ensures Holds(RemoveAt(s, k), a, v) <==> Holds(s, a, v) && !s[k].Has(a)
  {
    hide Good;
    var r := RemoveAt(s, k);
    if Holds(r, a, v) {
      var i :| 0 <= i < |r| && r[i].Has(a) && r[i].val == v;
      var j := RemoveAtIndex(s, k, i);
      NoOther(s, j, k, a);
    }
    if Holds(s, a, v) && !s[k].Has(a) {
      var j :| 0 <= j < |s| && s[j].Has(a) && s[j].val == v;
      assert r[if j == |s| - 1 then k else j] == s[j];
    }
  }

  lemma {:induction false} UpdateMeeting<T>(s: seq<Interval<T>>, k: nat, x: Interval<T>, start: nat, size: nat)
    requires k < |s|
    ensures Meeting(s[k := x], start, size)
            == Meeting(s, start, size) - (if s[k].Overlaps(start, size) then 1 else 0)
               + (if x.Overlaps(start, size) then 1 else 0)
    decreases |s|
  {
    var n := |s| - 1;
    if k < n {
      UpdateMeeting(s[..n], k, x, start, size);
      assert s[k := x][..n] == s[..n][k := x];
    } else {
      assert s[k := x][..n] == s[..n];
    }
  }

  /** Interval k replaced by parts: what both the split of the free list and the cut of a used interval do. */
  function Replaced<T>(s: seq<Interval<T>>, k: nat, parts: seq<Interval<T>>): seq<Interval<T>>
    requires k < |s|
  {
    RemoveAt(s, k) + parts
  }

  ghost predicate Within<T>(parts: seq<Interval<T>>, x: Interval<T>) {
    forall j :: 0 <= j < |parts| ==> x.start <= parts[j].start && parts[j].End() <= x.End()
  }

  lemma ReplacedGood<T>(s: seq<Interval<T>>, k: nat, parts: seq<Interval<T>>)
    requires Good(s) && k < |s| && Good(parts) && Within(parts, s[k])
    ensures Good(Replaced(s, k, parts))
  {
    hide Good;
    var r := RemoveAt(s, k);
    RemoveAtGood(s, k);
    forall i, j | 0 <= i < |r| && 0 <= j < |parts|
      ensures Apart(r[i], parts[j])
    {
      var i' := RemoveAtIndex(s, k, i);
      ApartAt(s, i', k);
    }
    ConcatGood(r, parts);
  }

  lemma ReplacedHas<T>(s: seq<Interval<T>>, k: nat, parts: seq<Interval<T>>, a: nat)
    requires Good(s) && k < |s|
    ensures Has(Replaced(s, k, parts), a) <==> (Has(s, a) && !s[k].Has(a)) || Has(parts, a)
  {
    hide Good;
    hide Has;
    RemoveAtHas(s, k, a);
    ConcatHas(RemoveAt(s, k), parts, a);
  }

  lemma ReplacedHolds<T>(s: seq<Interval<T>>, k: nat, parts: seq<Interval<T>>, a: nat, v: T)
    requires Good(s) && k < |s|
    ensures Holds(Replaced(s, k, parts), a, v) <==> (Holds(s, a, v) && !s[k].Has(a)) || Holds(parts, a, v)
  {
    hide Good;
    hide Holds;
    RemoveAtHolds(s, k, a, v);
    ConcatHolds(RemoveAt(s, k), parts, a, v);
  }

  lemma ReplacedMeeting<T>(s: seq<Interval<T>>, k: nat, parts: seq<Interval<T>>, start: nat, size: nat)
    requires k < |s|
    ensures Meeting(Replaced(s, k, parts), start, size)
            == Meeting(s, start, size) - (if s[k].Overlaps(start, size) then 1 else 0) + Meeting(parts, start, size)
  {
    var n := |s| - 1;
    UpdateMeeting(s, k, s[n], start, size);
    assert s[k := s[n]][..n] == RemoveAt(s, k);
    ConcatMeeting(RemoveAt(s, k), parts, start, size);
  }

  // The class.

  /** The k-th interval is the first of at least the given size. */
  ghost predicate FirstFit<T>(s: seq<Interval<T>>, size: nat, k: nat) {
    k < |s| && s[k].size >= size && forall j :: 0 <= j < k ==> s[j].size < size
  }

  class IntervalTree<T(0, ==)> {
    const intervals: Vector<Interval<T>>

    ghost predicate Valid()
      reads this, intervals
    {
      intervals.Valid()
    }

    ghost function S(): seq<Interval<T>>
      requires Valid()
      reads this, intervals, intervals.data
    {
      intervals.Contents()
    }

    constructor (answers: nat -> bool)
      ensures Valid() && S() == [] && fresh(intervals) && fresh(intervals.data)
      ensures intervals.answers == answers && intervals.asked == 0
    {
      intervals := new Vector(answers);
    }

    /** The requests for memory so far. */
    ghost function Asked(): nat
      reads intervals
    {
      intervals.asked
    }

    /** The answers to the requests from the from-th up to the to-th. */
    ghost predicate Granted(from: nat, to: nat) {
      Vectors.Granted(intervals.answers, from, to)
    }

    method Add(start: nat, size: nat, val: T) returns (ok: bool)
      requires Valid()
      modifies intervals, intervals.data
      ensures Valid() && (intervals.data == old(intervals.data) || fresh(intervals.data))
      ensures S() == if ok then old(S()) + [Interval(start, size, val)] else old(S())
      ensures Asked() == old(Asked()) + (if old(intervals.length < intervals.data.Length) then 0 else 1)
      ensures ok <==> Granted(old(Asked()), Asked())
    {
      ok := intervals.Append(Interval(start, size, val));
    }

    /** Removes the first interval with exactly this start and size. */
    method Remove(start: nat, size: nat) returns (ok: bool, ghost k: nat)
      requires Valid()
      modifies intervals`length, intervals.data
      ensures Valid() && intervals.data == old(intervals.data) && Asked() == old(Asked())
      ensures ok ==>
                && k < |old(S())| && old(S())[k].start == start && old(S())[k].size == size
                && S() == RemoveAt(old(S()), k)
      ensures !ok ==> S() == old(S()) && forall i :: 0 <= i < |S()| ==> S()[i].start != start || S()[i].size != size
    {
      var i := 0;
      while i < intervals.length
        invariant i <= intervals.length
        invariant forall j :: 0 <= j < i ==> S()[j].start != start || S()[j].size != size
      {
        if intervals.data[i].start == start && intervals.data[i].size == size {
          k := i;
          intervals.UnorderedRemove(i);
          return true, k;
        }
        i := i + 1;
      }
      ok, k := false, 0;
    }

    /** The first interval that meets the range. */
    method Overlaps(start: nat, size: nat) returns (ok: bool, val: Option<Interval<T>>, ghost k: nat)
      requires Valid()
      ensures ok == val.Some?
      ensures ok ==> k < |S()| && S()[k] == val.value && val.value.Overlaps(start, size)
                     && forall i :: 0 <= i < k ==> !S()[i].Overlaps(start, size)
      ensures !ok ==> forall i :: 0 <= i < |S()| ==> !S()[i].Overlaps(start, size)
    {
      var i := 0;
      while i < intervals.length
        invariant i <= intervals.length
        invariant forall j :: 0 <= j < i ==> !S()[j].Overlaps(start, size)
      {
        if intervals.data[i].Overlaps(start, size) {
          return true, Some(intervals.data[i]), i;
        }
        i := i + 1;
      }
      ok, val, k := false, None, 0;
    }

    /** The first interval of at least the given size. */
    method Find(size: nat) returns (ok: bool, val: Option<Interval<T>>, ghost k: nat)
      requires Valid()
      ensures ok == val.Some?
      ensures ok ==> FirstFit(S(), size, k) && S()[k] == val.value
      ensures !ok ==> forall i :: 0 <= i < |S()| ==> S()[i].size < size
    {
      var i := 0;
      while i < intervals.length
        invariant i <= intervals.length
        invariant forall j :: 0 <= j < i ==> S()[j].size < size
      {
        if intervals.data[i].size >= size {
          return true, Some(intervals.data[i]), i;
        }
        i := i + 1;
      }
      ok, val, k := false, None, 0;
    }
  }
}
