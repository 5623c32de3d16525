/** The argument list that the host leaves in guest memory (kvm/argv.go), and how it is read back with the
    repository's own helpers (hypercall.go, kvm/kvm_amd64.go). */
module Argv {
  import opened Base
  import opened Files

  const PHYS_RAM_BASE: nat := 0x4000_0000
  const PHYS_KERN_BASE: nat := 0x4000_8000
  const KERN_BASE: nat := 0xffff_8000_0000_0000
  const KERN_TEXT_BASE: nat := 0xffff_ffff_8000_0000

  function Pa2Ka(pa: nat): nat { (pa + KERN_BASE) % WORD }

  function Ka2Pa(ka: nat): nat {
    if ka >= KERN_TEXT_BASE then ka - KERN_TEXT_BASE
    else if ka >= KERN_BASE then ka - KERN_BASE
    else ka
  }

  /** An address comes back from the trip through the kernel's direct map if and only if its kernel address lies below
      the window of the kernel text. */
  lemma KaRoundTrip(pa: nat)
    requires pa < WORD
    ensures Ka2Pa(Pa2Ka(pa)) == pa <==> KERN_BASE + pa < KERN_TEXT_BASE
    ensures KERN_BASE + pa < KERN_TEXT_BASE ==> Pa2Ka(pa) == 0xffff_8000_0000_0000 + pa < WORD
    ensures pa < 0x8000_0000 ==> Ka2Pa(0xffff_ffff_8000_0000 + pa) == pa
  {
    if pa + KERN_BASE >= WORD {
      DivModUnique(pa + KERN_BASE, WORD, 1, pa + KERN_BASE - WORD);
    }
  }

  // Words.

  /** The low n bytes of a number, the lowest first. */
  function Bytes(w: nat, n: nat): (b: seq<Byte>)
    ensures |b| == n
    decreases n
  {
    if n == 0 then [] else [w % 256] + Bytes(w / 256, n - 1)
  }

  function ReadBytes(b: seq<Byte>): nat {
    if b == [] then 0 else b[0] + 256 * ReadBytes(b[1..])
  }

  /** binary.LittleEndian.PutUint64 */
  function WordBytes(w: nat): (b: seq<Byte>)
    ensures |b| == 8
  {
    Bytes(w, 8)
  }

  function ReadWord(b: seq<Byte>): nat
    requires |b| == 8
  {
    ReadBytes(b)
  }

  function Power256(n: nat): nat { if n == 0 then 1 else 256 * Power256(n - 1) }

  lemma {:induction false} BytesRoundTrip(w: nat, n: nat)
    requires w < Power256(n)
    ensures ReadBytes(Bytes(w, n)) == w
    decreases n
  {
    if n > 0 {
      BytesRoundTrip(w / 256, n - 1);
      assert Bytes(w, n)[1..] == Bytes(w / 256, n - 1);
    }
  }

  lemma WordRoundTrip(w: nat)
    requires w < WORD
    ensures ReadWord(WordBytes(w)) == w
  {
    assert Power256(2) == 0x1_0000;
    assert Power256(4) == 0x1_0000_0000;
    assert Power256(6) == 0x1_0000_0000_0000;
    BytesRoundTrip(w, 8);
  }

  /** The i-th byte of a word in memory is its i-th digit in base 256. */
  lemma {:induction false} BytesAt(w: nat, n: nat, i: nat)
    requires i < n
    ensures Power256(i) > 0 && Bytes(w, n)[i] == w / Power256(i) % 256
    decreases n
  {
    if i > 0 {
      BytesAt(w / 256, n - 1, i - 1);
      var p := Power256(i - 1);
      assert Power256(i) == 256 * p;
      DivTwice(w, p);
    }
  }

  /** A word in memory, the lowest byte first. */
  lemma WordBytesAt(w: nat, i: nat)
    requires i < 8
    ensures Power256(i) > 0 && WordBytes(w)[i] == w / Power256(i) % 256
  {
    BytesAt(w, 8, i);
  }

  lemma DivTwice(w: nat, b: nat)
    requires b > 0
    ensures w / 256 / b == w / (256 * b)
  {
    var x := w / 256;
    var y, z := x / b, x % b;
    Regroup256(y, b);
    assert x == b * y + z;
    DivModUnique(w, 256 * b, y, 256 * z + w % 256);
  }

  lemma Regroup256(y: nat, b: nat)
    ensures y * (256 * b) == 256 * (b * y)
  {
  }

  // What is written.

  /** The strings one after the other, each with its terminator. */
  function Flat(args: seq<seq<Byte>>): seq<Byte> {
    if args == [] then [] else Flat(args[..|args| - 1]) + args[|args| - 1] + [0]
  }

  function FlatWords(ws: seq<nat>): (b: seq<Byte>)
    ensures |b| == 8 * |ws|
  {
    if ws == [] then [] else FlatWords(ws[..|ws| - 1]) + WordBytes(ws[|ws| - 1])
  }

  /** The kernel address of the j-th string. */
  function Pointer(args: seq<seq<Byte>>, off: nat, j: nat): nat
    requires j <= |args|
  {
    Pa2Ka(PHYS_RAM_BASE + off + |Flat(args[..j])|)
  }

  /** cstring */
  function CString(data: seq<Byte>): seq<Byte> {
    if data == [] || data[0] == 0 then [] else [data[0]] + CString(data[1..])
  }

  // What is read: pointers up to a zero word, each followed to its string.

  function ReadArgs(mem: seq<Byte>, at: nat): seq<seq<Byte>>
    decreases |mem| - at
  {
    if at + 8 > |mem| then []
    else
      var w := ReadWord(mem[at..at + 8]);
      if w == 0 || Ka2Pa(w) < PHYS_RAM_BASE || Ka2Pa(w) - PHYS_RAM_BASE > |mem| then []
      else [CString(mem[Ka2Pa(w) - PHYS_RAM_BASE..])] + ReadArgs(mem, at + 8)
  }

  ghost predicate NulFree(args: seq<seq<Byte>>) {
    forall i :: 0 <= i < |args| ==> 0 !in args[i]
  }

  lemma {:induction false} CStringStops(s: seq<Byte>, rest: seq<Byte>)
    requires 0 !in s
    ensures CString(s + [0] + rest) == s
  {
    var data := s + [0] + rest;
    if s != [] {
      assert data[1..] == s[1..] + [0] + rest;
      CStringStops(s[1..], rest);
    }
  }

  function Words(args: seq<seq<Byte>>, off: nat): (ws: seq<nat>)
    ensures |ws| == |args| + 1
  {
    seq(|args|, j requires 0 <= j < |args| => Pointer(args, off, j)) + [0]
  }

  /** mem holds the strings from off on and, right after them, their addresses and a zero word. */
  ghost predicate Written(mem: seq<Byte>, args: seq<seq<Byte>>, off: nat) {
    var n, m := |Flat(args)|, 8 * (|args| + 1);
    && off + n + m <= |mem|
    && mem[off..off + n] == Flat(args)
    && mem[off + n..off + n + m] == FlatWords(Words(args, off))
  }

  /** All of it lies below the kernel: the test at the end of WriteAt. */
  ghost predicate Below(args: seq<seq<Byte>>, off: nat) {
    PHYS_RAM_BASE + off + |Flat(args)| + 8 * (|args| + 1) <= PHYS_KERN_BASE
  }

  lemma {:induction false} FlatWordsAt(ws: seq<nat>, j: nat)
    requires j < |ws|
    ensures FlatWords(ws)[8 * j..8 * j + 8] == WordBytes(ws[j])
    decreases |ws|
  {
    hide WordBytes;
    var k := |ws| - 1;
    var front, last := FlatWords(ws[..k]), WordBytes(ws[k]);
    assert FlatWords(ws) == front + last;
    hide FlatWords;
    if j < k {
      FlatWordsAt(ws[..k], j);
      SliceFront(front, last, 8 * j, 8 * j + 8);
    } else {
      SliceBack(front, last);
    }
  }

  lemma SliceFront(a: seq<Byte>, b: seq<Byte>, i: nat, j: nat)
    requires i <= j <= |a|
    ensures (a + b)[i..j] == a[i..j]
  {
  }

  lemma SliceBack(a: seq<Byte>, b: seq<Byte>)
    ensures (a + b)[|a|..|a| + |b|] == b
  {
  }

  /** The j-th string starts where the first j strings end. */
  lemma {:induction false} FlatAt(args: seq<seq<Byte>>, j: nat)
    requires j < |args|
    ensures var p := |Flat(args[..j])|;
            p + |args[j]| + 1 <= |Flat(args)| && Flat(args)[p..p + |args[j]| + 1] == args[j] + [0]
    decreases |args|
  {
    var k := |args| - 1;
    var p := |Flat(args[..j])|;
    if j < k {
      FlatAt(args[..k], j);
      assert args[..k][..j] == args[..j];
      assert Flat(args)[p..p + |args[j]| + 1] == Flat(args[..k])[p..p + |args[j]| + 1];
    } else {
      assert Flat(args) == Flat(args[..j]) + (args[j] + [0]);
    }
  }

  lemma WordAt(mem: seq<Byte>, args: seq<seq<Byte>>, off: nat, j: nat)
    requires Written(mem, args, off) && j <= |args|
    ensures var at := off + |Flat(args)| + 8 * j;
            at + 8 <= |mem| && mem[at..at + 8] == WordBytes(Words(args, off)[j])
  {
    hide WordBytes;
    hide FlatWords;
    hide Flat;
    hide Words;
    var n, m, at := |Flat(args)|, 8 * (|args| + 1), off + |Flat(args)| + 8 * j;
    FlatWordsAt(Words(args, off), j);
    SliceOf(mem, off + n, off + n + m, 8 * j, 8 * j + 8);
  }

  lemma SliceOf(mem: seq<Byte>, a: nat, b: nat, c: nat, d: nat)
    requires a <= b <= |mem| && c <= d <= b - a
    ensures mem[a..b][c..d] == mem[a + c..a + d]
  {
    assert forall i :: 0 <= i < d - c ==> mem[a..b][c..d][i] == mem[a + c..a + d][i];
  }

  lemma StringAt(mem: seq<Byte>, args: seq<seq<Byte>>, off: nat, j: nat)
    requires Written(mem, args, off) && NulFree(args) && j < |args|
    ensures |Flat(args[..j])| < |Flat(args)| && off + |Flat(args[..j])| <= |mem| && CString(mem[off + |Flat(args[..j])|..]) == args[j]
  {
    hide Flat;
    hide CString;
    hide FlatWords;
    hide Words;
    var p, l := |Flat(args[..j])|, |args[j]| + 1;
    FlatAt(args, j);
    var data := mem[off + p..];
    assert data[..l] == mem[off..off + |Flat(args)|][p..p + l];
    assert data == args[j] + [0] + data[l..];
    CStringStops(args[j], data[l..]);
  }

  /** The j-th pointer leads to the j-th string; the last word is zero. */
  lemma PointerTrip(args: seq<seq<Byte>>, off: nat, j: nat)
    requires j <= |args| && Below(args, off)
    ensures var w := Words(args, off)[j];
            && w < WORD && (w == 0 <==> j == |args|)
            && (j < |args| ==> Ka2Pa(w) == PHYS_RAM_BASE + off + |Flat(args[..j])|)
  {
    if j < |args| {
      FlatGrows(args, j, |args|);
      KaRoundTrip(PHYS_RAM_BASE + off + |Flat(args[..j])|);
    }
  }

  lemma ReadStep(mem: seq<Byte>, at: nat, w: nat)
    requires at + 8 <= |mem| && mem[at..at + 8] == WordBytes(w) && w < WORD
    ensures w == 0 ==> ReadArgs(mem, at) == []
    ensures w != 0 && PHYS_RAM_BASE <= Ka2Pa(w) <= PHYS_RAM_BASE + |mem| ==>
              ReadArgs(mem, at) == [CString(mem[Ka2Pa(w) - PHYS_RAM_BASE..])] + ReadArgs(mem, at + 8)
  {
    hide WordBytes;
    hide ReadWord;
    hide Ka2Pa;
    hide CString;
    WordRoundTrip(w);
  }

  /** Byte by byte: the j-th string stands behind the ones before it and is followed by a zero, the j-th word holds its
      kernel address, and the word after the last is zero. */
  lemma InMemory(mem: seq<Byte>, args: seq<seq<Byte>>, off: nat, j: nat)
    requires Written(mem, args, off) && Below(args, off) && j < |args|
    ensures var p, at := off + |Flat(args[..j])|, off + |Flat(args)| + 8 * j;
            && |Flat(args[..j + 1])| == |Flat(args[..j])| + |args[j]| + 1
            && p + |args[j]| + 1 <= |mem| && mem[p..p + |args[j]|] == args[j] && mem[p + |args[j]|] == 0
            && at + 16 <= |mem|
            && ReadWord(mem[at..at + 8]) == 0xffff_8000_4000_0000 + p
            && (j == |args| - 1 ==> ReadWord(mem[at + 8..at + 16]) == 0)
  {
    hide Flat;
    hide FlatWords;
    hide WordBytes;
    hide ReadWord;
    hide Words;
    StringBytes(mem, args, off, j);
    PointerAt(args, off, j);
    WordAt(mem, args, off, j);
    WordAt(mem, args, off, j + 1);
    WordRoundTrip(Words(args, off)[j]);
    WordRoundTrip(0);
  }

  lemma StringBytes(mem: seq<Byte>, args: seq<seq<Byte>>, off: nat, j: nat)
    requires Written(mem, args, off) && j < |args|
    ensures var p := off + |Flat(args[..j])|;
            && |Flat(args[..j + 1])| == |Flat(args[..j])| + |args[j]| + 1
            && p + |args[j]| + 1 <= |mem| && mem[p..p + |args[j]|] == args[j] && mem[p + |args[j]|] == 0
  {
    hide Flat;
    hide FlatWords;
    hide Words;
    FlatNext(args, j);
    var p, l := |Flat(args[..j])|, |args[j]|;
    FlatAt(args, j);
    SliceOf(mem, off, off + |Flat(args)|, p, p + l + 1);
    StringEnds(mem, off + p, args[j]);
  }

  lemma StringEnds(mem: seq<Byte>, p: nat, s: seq<Byte>)
    requires p + |s| + 1 <= |mem| && mem[p..p + |s| + 1] == s + [0]
    ensures mem[p..p + |s|] == s && mem[p + |s|] == 0
  {
    var slice := mem[p..p + |s| + 1];
    assert slice[..|s|] == s && slice[|s|] == 0;
  }

  lemma PointerAt(args: seq<seq<Byte>>, off: nat, j: nat)
    requires Below(args, off) && j < |args|
    ensures var ws := Words(args, off);
            ws[j] == 0xffff_8000_4000_0000 + off + |Flat(args[..j])| < WORD && (j == |args| - 1 ==> ws[j + 1] == 0)
  {
    hide Flat;
    FlatGrows(args, j, |args|);
    KaRoundTrip(PHYS_RAM_BASE + off + |Flat(args[..j])|);
  }

  /** Following the pointers from the j-th on recovers the strings from the j-th on. */
  lemma {:induction false} ReadBackFrom(mem: seq<Byte>, args: seq<seq<Byte>>, off: nat, j: nat)
    requires Written(mem, args, off) && NulFree(args) && j <= |args| && Below(args, off)
    ensures ReadArgs(mem, off + |Flat(args)| + 8 * j) == args[j..]
    decreases |args| - j
  {
    hide WordBytes;
    hide Words;
    hide Ka2Pa;
    hide ReadArgs;
    hide CString;
    hide Flat;
    hide Written;
    hide NulFree;
    WordAt(mem, args, off, j);
    PointerTrip(args, off, j);
    ReadStep(mem, off + |Flat(args)| + 8 * j, Words(args, off)[j]);
    if j < |args| {
      StringAt(mem, args, off, j);
      ReadBackFrom(mem, args, off, j + 1);
    }
  }

  /** The argv round trip: the list read from the returned address is the list written. */
  lemma ReadBack(mem: seq<Byte>, args: seq<seq<Byte>>, off: nat)
    requires Written(mem, args, off) && NulFree(args) && Below(args, off)
    ensures ReadArgs(mem, Ka2Pa(Pa2Ka(PHYS_RAM_BASE + off + |Flat(args)|)) - PHYS_RAM_BASE) == args
  {
    hide Written;
    hide NulFree;
    hide Flat;
    hide ReadArgs;
    hide Pa2Ka;
    hide Ka2Pa;
    KaRoundTrip(PHYS_RAM_BASE + off + |Flat(args)|);
    ReadBackFrom(mem, args, off, 0);
  }

  /** The end of a Go call: an error, a run-time panic, or the address of the pointer array. */
  datatype Outcome = Error | Panicked | Address(ka: nat)

  /** copy(mem[off:], b): as much as fits. */
  method Copy(mem: array<Byte>, off: nat, b: seq<Byte>)
    requires off <= mem.Length
    modifies mem
    ensures forall p :: 0 <= p < mem.Length ==> mem[p] == if off <= p < off + |b| then b[p - off] else old(mem[p])
  {
    var n := Min(|b|, mem.Length - off);
    forall i | 0 <= i < n {
      mem[off + i] := b[i];
    }
  }

  method WriteAt(args: seq<seq<Byte>>, mem: array<Byte>, start: nat) returns (r: Outcome)
    modifies mem
    ensures r.Address? <==> start + |Flat(args)| + 8 * (|args| + 1) <= mem.Length && Below(args, start)
    ensures r.Address? <==> start + |Flat(args)| + 8 * (|args| + 1) <= Min(mem.Length, 0x8000)
    ensures r.Address? ==> r.ka == Pa2Ka(PHYS_RAM_BASE + start + |Flat(args)|) && Written(mem[..], args, start)
    ensures r.Address? ==> r.ka == 0xffff_8000_4000_0000 + start + |Flat(args)|
    ensures forall p :: 0 <= p < mem.Length && !(start <= p < start + |Flat(args)| + 8 * (|args| + 1)) ==> mem[p] == old(mem[p])
    ensures r == Panicked <==> start + |Flat(args)| + 8 * (|args| + 1) > mem.Length
    ensures r.Address? ==> forall p :: PHYS_KERN_BASE - PHYS_RAM_BASE <= p < mem.Length ==> mem[p] == old(mem[p])
  {
    hide WordBytes;
    hide FlatWords;
    hide Flat;
    var ok, argp, argv := WriteStrings(args, mem, start);
    if !ok {
      return Panicked;
    }
    argp := argp + [0];
    assert argp == Words(args, start);
    ghost var strings := mem[..];
    r := WriteWords(argp, mem, argv);
    if r == Panicked {
      return;
    }
    assert mem[start..argv] == strings[start..argv];
    if PHYS_RAM_BASE + (argv + 8 * |argp|) > PHYS_KERN_BASE {
      return Error;
    }
    KaRoundTrip(PHYS_RAM_BASE + argv);
    r := Address(Pa2Ka(PHYS_RAM_BASE + argv));
  }

  lemma Copied(before: seq<Byte>, after: seq<Byte>, start: nat, off: nat, b: seq<Byte>)
    requires start <= off && off + |b| <= |after| == |before|
    requires forall p :: 0 <= p < |after| ==> after[p] == if off <= p < off + |b| then b[p - off] else before[p]
    ensures after[start..off + |b|] == before[start..off] + b
  {
    var x, y := after[start..off + |b|], before[start..off] + b;
    assert |x| == |y|;
    forall i | 0 <= i < |x|
      ensures x[i] == y[i]
    {
      assert x[i] == after[start + i];
    }
  }

  /** The first loop of WriteAt: the strings, and the list of their addresses.  A string that does not fit is cut off,
      and the next slice past the end of memory panics. */
  method WriteStrings(args: seq<seq<Byte>>, mem: array<Byte>, start: nat) returns (ok: bool, argp: seq<nat>, off: nat)
    modifies mem
    ensures !ok ==> start + |Flat(args)| > mem.Length
    ensures ok ==> off == start + |Flat(args)| && |argp| == |args|
    ensures ok ==> forall j :: 0 <= j < |args| ==> argp[j] == Pointer(args, start, j)
    ensures ok && off <= mem.Length ==> mem[start..off] == Flat(args)
    ensures forall p :: 0 <= p < mem.Length && !(start <= p < start + |Flat(args)|) ==> mem[p] == old(mem[p])
  {
    hide Flat;
    off, argp := start, [];
    var i := 0;
    FlatNone(args);
    while i < |args|
      invariant 0 <= i <= |args| && off == start + |Flat(args[..i])|
      invariant |argp| == i && forall j :: 0 <= j < i ==> argp[j] == Pointer(args, start, j)
      invariant off <= mem.Length ==> mem[start..off] == Flat(args[..i])
      invariant forall p :: 0 <= p < mem.Length && !(start <= p < off) ==> mem[p] == old(mem[p])
    {
      var b := args[i] + [0];
      if off > mem.Length {
        FlatGrows(args, i, |args|);
        return false, argp, off;
      }
      ghost var before := mem[..];
      Copy(mem, off, b);
      FlatNext(args, i);
      if off + |b| <= mem.Length {
        Copied(before, mem[..], start, off, b);
      }
      argp := argp + [Pa2Ka(PHYS_RAM_BASE + off)];
      off := off + |b|;
      i := i + 1;
    }
    assert args[..i] == args;
    ok := true;
  }

  /** The second loop of WriteAt. */
  method WriteWords(ws: seq<nat>, mem: array<Byte>, argv: nat) returns (r: Outcome)
    requires ws != []
    modifies mem
    ensures r == if argv + 8 * |ws| <= mem.Length then Address(argv) else Panicked
    ensures r.Address? ==> mem[argv..argv + 8 * |ws|] == FlatWords(ws)
    ensures forall p :: 0 <= p < mem.Length && !(argv <= p < argv + 8 * |ws|) ==> mem[p] == old(mem[p])
  {
    hide WordBytes;
    var i, off := 0, argv;
    while i < |ws|
      invariant 0 <= i <= |ws| && off == argv + 8 * i
      invariant i > 0 ==> off <= mem.Length && mem[argv..off] == FlatWords(ws[..i])
      invariant forall p :: 0 <= p < mem.Length && !(argv <= p < off) ==> mem[p] == old(mem[p])
    {
      if off + 8 > mem.Length {
        return Panicked;
      }
      ghost var before := mem[..];
      Copy(mem, off, WordBytes(ws[i]));
      Copied(before, mem[..], argv, off, WordBytes(ws[i]));
      assert ws[..i + 1][..i] == ws[..i];
      assert i == 0 ==> before[argv..off] == [] == FlatWords(ws[..0]);
      off := off + 8;
      i := i + 1;
    }
    assert ws[..i] == ws;
    r := Address(argv);
  }

  lemma FlatNone(args: seq<seq<Byte>>)
    ensures Flat(args[..0]) == []
  {
  }

  lemma FlatNext(args: seq<seq<Byte>>, i: nat)
    requires i < |args|
    ensures Flat(args[..i + 1]) == Flat(args[..i]) + (args[i] + [0])
  {
    assert args[..i + 1][..i] == args[..i];
  }

  lemma {:induction false} FlatGrows(args: seq<seq<Byte>>, i: nat, k: nat)
    requires i <= k <= |args|
    ensures |Flat(args[..i])| <= |Flat(args[..k])|
    ensures k == |args| ==> args[..k] == args
    decreases k - i
  {
    if i < k {
      FlatGrows(args, i, k - 1);
      FlatNext(args, k - 1);
    }
  }
}
