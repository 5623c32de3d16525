/** The growable array of rekernel/core/vector.d. */
module Vectors {

  /** What removing an element by moving the last one into its place leaves. */
  function RemoveAt<T>(s: seq<T>, idx: nat): (r: seq<T>)
    requires idx < |s|
    ensures |r| == |s| - 1
  {
    s[idx := s[|s| - 1]][..|s| - 1]
  }

  lemma RemoveAtMultiset<T>(s: seq<T>, idx: nat)
    requires idx < |s|
    ensures multiset(RemoveAt(s, idx)) == multiset(s) - multiset{s[idx]}
  {
    var u := s[idx := s[|s| - 1]];
    assert u == RemoveAt(s, idx) + [s[|s| - 1]];
    assert multiset(u) == multiset(RemoveAt(s, idx)) + multiset{s[|s| - 1]};
    var last := multiset{s[|s| - 1]};
    assert multiset(u) == multiset(s) - multiset{s[idx]} + last;
    assert multiset(s) - multiset{s[idx]} + last - last == multiset(s) - multiset{s[idx]};
    assert multiset(RemoveAt(s, idx)) + last - last == multiset(RemoveAt(s, idx));
  }

  /** An allocator answered yes to requests from the from-th up to, but not including, the to-th. */
  ghost predicate Granted(answers: nat -> bool, from: nat, to: nat) {
    forall i :: from <= i < to ==> answers(i)
  }

  class Vector<T(0)> {
    var data: array<T>
    var length: nat
    const answers: nat -> bool // what kalloc answers to the requests of this vector, in order
    var asked: nat             // how many requests there were

    ghost predicate Valid()
      reads this
    {
      length <= data.Length
    }

    ghost function Contents(): seq<T>
      requires Valid()
      reads this, data
    {
      data[..length]
    }

    constructor (answers: nat -> bool)
      ensures Valid() && Contents() == [] && fresh(data) && this.answers == answers && asked == 0
    {
      data, length := new T[0], 0;
      this.answers, asked := answers, 0;
    }

    /** Moves the elements into a larger allocation; false when kalloc returned null. */
    method Grow(newlen: nat) returns (ok: bool)
      requires Valid() && newlen >= data.Length
      modifies this`data, this`asked
      ensures Valid() && Contents() == old(Contents())
      ensures ok == answers(old(asked)) && asked == old(asked) + 1
      ensures ok ==> fresh(data) && data.Length == newlen
      ensures !ok ==> data == old(data)
    {
      asked := asked + 1;
      if !answers(asked - 1) {
        return false;
      }
      var p := new T[newlen];
      var i := 0;
      while i < data.Length
        invariant i <= data.Length && p[..i] == data[..i]
        modifies p
      {
        p[i] := data[i];
        i := i + 1;
      }
      data := p;
      ok := true;
    }

    /** Asks for memory only when the vector is full, and fails only when that is refused. */
    method Append(value: T) returns (ok: bool)
      requires Valid()
      modifies this, data
      ensures Valid() && (data == old(data) || fresh(data))
      ensures Contents() == if ok then old(Contents()) + [value] else old(Contents())
      ensures asked == old(asked) + if old(length < data.Length) then 0 else 1
      ensures ok <==> Granted(answers, old(asked), asked)
      ensures data.Length == if !ok || old(length < data.Length) then old(data.Length)
                             else if old(data.Length) == 0 then 8 else 2 * old(data.Length)
    {
      if length >= data.Length {
        ok := Grow(if data.Length == 0 then 8 else data.Length * 2);
        if !ok {
          return;
        }
      }
      data[length] := value;
      length := length + 1;
      ok := true;
    }

    method UnorderedRemove(idx: nat)
      requires Valid() && idx < length
      modifies this`length, data
      ensures Valid() && data == old(data)
      ensures Contents() == RemoveAt(old(Contents()), idx)
      ensures length == old(length) - 1
      ensures forall i :: 0 <= i < length ==> data[i] == old(data[if i == idx then length - 1 else i])
    {
      data[idx] := data[length - 1];
      length := length - 1;
    }
  }
}
