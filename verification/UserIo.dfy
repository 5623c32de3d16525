/** sys_read and sys_write of rekernel/syscall.d: transfers between a file and a user buffer, one run of physically
    contiguous bytes at a time. */
module UserIo {
  import opened Base
  import opened PageTree
  import opened Intervals
  import opened Files
  import opened Spaces
  import ProcVm
  import Vmas
  import Arm64Vm
  import Amd64Vm

  datatype IoResult = Count(n: nat) | EBadF | EPerm | EFault

  /** The file argument: not open, open without the operation, or open. */
  datatype FdArg = Closed | Without | Open(file: VFile)

  /** The physical address of a user address. */
  ghost function Pa(t: Tree, va: nat): nat
    requires WellFormed(t)
  {
    Lookup(t, va).pa
  }

  ghost predicate IsMapped(t: Tree, va: nat)
    requires WellFormed(t)
  {
    Lookup(t, va).valid
  }

  /** Every mapped byte of the buffer lies in physical memory. */
  ghost predicate InRam(t: Tree, buf: nat, size: nat, ram: int)
    requires WellFormed(t)
  {
    forall va :: buf <= va < buf + size && IsMapped(t, va) ==> Pa(t, va) < ram
  }

  /** No two mapped bytes of the buffer share a physical byte. */
  ghost predicate Injective(t: Tree, buf: nat, size: nat)
    requires WellFormed(t)
  {
    forall va, w :: buf <= va < w < buf + size && IsMapped(t, va) && IsMapped(t, w) ==> Pa(t, va) != Pa(t, w)
  }

  ghost predicate Writable(t: Tree, buf: nat, size: nat)
    requires WellFormed(t)
  {
    forall va :: buf <= va < buf + size ==> Lookup(t, va).perm.write
  }

  ghost predicate Readable(t: Tree, buf: nat, size: nat)
    requires WellFormed(t)
  {
    forall va :: buf <= va < buf + size ==> Lookup(t, va).perm.read
  }

  /** Some byte of the buffer up to i lies at physical address p. */
  ghost predicate Touches(t: Tree, buf: nat, i: nat, p: nat)
    requires WellFormed(t)
  {
    exists va :: buf <= va < buf + i && IsMapped(t, va) && Pa(t, va) == p
  }

  /** No later byte of the first i bytes of the buffer lies where va does. */
  ghost predicate Last(t: Tree, buf: nat, i: nat, va: nat)
    requires WellFormed(t)
  {
    forall w :: va < w < buf + i && IsMapped(t, w) ==> Pa(t, w) != Pa(t, va)
  }

  /** The first i bytes of the buffer are mapped and hold data from an index on, where several lie at one place the last
      of them; the rest of memory is as before. */
  ghost predicate Filled(t: Tree, buf: nat, i: nat, ram: seq<Byte>, ram0: seq<Byte>, data: seq<Byte>, from: nat)
    requires WellFormed(t)
  {
    && |ram| == |ram0| && (i > 0 ==> from + i <= |data|)
    && (forall va :: buf <= va < buf + i ==> IsMapped(t, va) && Pa(t, va) < |ram|)
    && (forall va :: buf <= va < buf + i && Last(t, buf, i, va) ==> ram[Pa(t, va)] == data[from + (va - buf)])
    && (forall p :: 0 <= p < |ram| && !Touches(t, buf, i, p) ==> ram[p] == ram0[p])
  }

  lemma TouchesMeans(t: Tree, buf: nat, i: nat, p: nat)
    requires WellFormed(t)
    ensures Touches(t, buf, i, p) <==> exists va :: buf <= va < buf + i && Lookup(t, va).valid && Lookup(t, va).pa == p
  {
    hide WellFormed;
    hide Lookup;
    if va :| buf <= va < buf + i && Lookup(t, va).valid && Lookup(t, va).pa == p {
      assert IsMapped(t, va);
    }
  }

  /** What a transfer leaves at an address that no later address of the buffer shares a place with, and at a place where
      no address of the buffer lies. */
  lemma FilledAt(t: Tree, buf: nat, i: nat, ram: seq<Byte>, ram0: seq<Byte>, data: seq<Byte>, from: nat, va: nat, p: nat)
    requires WellFormed(t) && Filled(t, buf, i, ram, ram0, data, from) && buf <= va < buf + i && p < |ram|
    requires forall w :: va < w < buf + i && Lookup(t, w).valid ==> Lookup(t, w).pa != Lookup(t, va).pa
    requires forall w :: buf <= w < buf + i && Lookup(t, w).valid ==> Lookup(t, w).pa != p
    ensures Lookup(t, va).valid && Lookup(t, va).pa < |ram| == |ram0| && from + i <= |data|
    ensures ram[Lookup(t, va).pa] == data[from + (va - buf)] && ram[p] == ram0[p]
  {
    hide WellFormed;
    hide Lookup;
    assert IsMapped(t, va);
    assert Last(t, buf, i, va);
    TouchesMeans(t, buf, i, p);
  }

  lemma RunOfBytes(t: Tree, va: nat, n: nat)
    requires WellFormed(t) && IsMapped(t, va) && n <= Lookup(t, va).size
    ensures forall w :: va <= w < va + n ==> IsMapped(t, w) && Pa(t, w) == Pa(t, va) + (w - va)
  {
    hide WellFormed;
    hide Lookup;
    forall w | va <= w < va + n
      ensures IsMapped(t, w) && Pa(t, w) == Pa(t, va) + (w - va)
    {
      LookupContiguous(t, va, w - va);
    }
  }

  /** A run of bytes touches the physical addresses from its first on. */
  lemma RunTouches(t: Tree, va: nat, n: nat, p: nat)
    requires WellFormed(t) && IsMapped(t, va) && n <= Lookup(t, va).size
    ensures Touches(t, va, n, p) <==> Pa(t, va) <= p < Pa(t, va) + n
  {
    hide WellFormed;
    hide Lookup;
    RunOfBytes(t, va, n);
    if Pa(t, va) <= p < Pa(t, va) + n {
      assert Pa(t, va + (p - Pa(t, va))) == p;
    }
  }

  lemma TouchesMore(t: Tree, buf: nat, i: nat, n: nat, p: nat)
    requires WellFormed(t)
    ensures Touches(t, buf, i + n, p) <==> Touches(t, buf, i, p) || Touches(t, buf + i, n, p)
  {
    hide WellFormed;
    hide Lookup;
    hide IsMapped;
    hide Pa;
  }

  /** A byte that no later one lies on is not in the run behind it, and no byte before that run lies on it either. */
  lemma LastNotInRun(t: Tree, buf: nat, i: nat, n: nat, va: nat)
    requires WellFormed(t) && buf <= va < buf + i && Last(t, buf, i + n, va)
    requires IsMapped(t, buf + i) && n <= Lookup(t, buf + i).size
    ensures Last(t, buf, i, va) && !(Pa(t, buf + i) <= Pa(t, va) < Pa(t, buf + i) + n)
  {
    hide WellFormed;
    hide Lookup;
    RunOfBytes(t, buf + i, n);
    var p := Pa(t, buf + i);
    if p <= Pa(t, va) < p + n {
      NotAt(t, buf, i, n, va, Pa(t, va) - p);
    }
  }

  lemma NotAt(t: Tree, buf: nat, i: nat, n: nat, va: nat, k: nat)
    requires WellFormed(t) && buf <= va < buf + i && Last(t, buf, i + n, va) && k < n
    requires IsMapped(t, buf + i) && n <= Lookup(t, buf + i).size
    ensures Pa(t, buf + i) + k != Pa(t, va)
  {
    hide WellFormed;
    hide Lookup;
    RunOfBytes(t, buf + i, n);
    assert Pa(t, buf + i + k) == Pa(t, buf + i) + k;
  }

  /** In a buffer no two bytes of which share a place, every byte read is there. */
  lemma FilledInjective(t: Tree, buf: nat, i: nat, ram: seq<Byte>, ram0: seq<Byte>, data: seq<Byte>, from: nat)
    requires WellFormed(t) && Filled(t, buf, i, ram, ram0, data, from) && Injective(t, buf, i)
    ensures forall va :: buf <= va < buf + i ==>
              && Lookup(t, va).valid && Lookup(t, va).pa < |ram|
              && ram[Lookup(t, va).pa] == data[from + (va - buf)]
  {
    hide WellFormed;
    hide Lookup;
    forall va | buf <= va < buf + i
      ensures Lookup(t, va).valid && Lookup(t, va).pa < |ram| && ram[Lookup(t, va).pa] == data[from + (va - buf)]
    {
      assert IsMapped(t, va) && Last(t, buf, i, va);
    }
  }

  /** ram1 is ram with n bytes of data, from an index on, at physical address p. */
  ghost predicate RunStored(ram: seq<Byte>, ram1: seq<Byte>, p: nat, n: nat, data: seq<Byte>, from: nat) {
    && |ram1| == |ram| && from + n <= |data|
    && forall q :: 0 <= q < |ram| ==> ram1[q] == if p <= q < p + n then data[from + (q - p)] else ram[q]
  }

  /** One byte of the buffer after one more run was read into it. */
  lemma FilledByte(t: Tree, buf: nat, size: nat, i: nat, n: nat, ram: seq<Byte>, ram1: seq<Byte>, ram0: seq<Byte>,
                   data: seq<Byte>, from: nat, va: nat)
    requires WellFormed(t) && Filled(t, buf, i, ram, ram0, data, from)
    requires 0 < n && i + n <= size && InRam(t, buf, size, |ram|)
    requires IsMapped(t, buf + i) && n <= Lookup(t, buf + i).size
    requires RunStored(ram, ram1, Pa(t, buf + i), n, data, from + i) && buf <= va < buf + i + n
    ensures IsMapped(t, va) && Pa(t, va) < |ram1|
    ensures Last(t, buf, i + n, va) ==> ram1[Pa(t, va)] == data[from + (va - buf)]
  {
    hide WellFormed;
    hide Lookup;
    hide Touches;
    if va < buf + i {
      if Last(t, buf, i + n, va) {
        LastNotInRun(t, buf, i, n, va);
        hide Last;
      }
    } else {
      hide Last;
      RunOfBytes(t, buf + i, n);
    }
  }

  /** Reading one more run into the buffer. */
  lemma FilledNext(t: Tree, buf: nat, size: nat, i: nat, n: nat, ram: seq<Byte>, ram1: seq<Byte>, ram0: seq<Byte>,
                   data: seq<Byte>, from: nat)
    requires WellFormed(t) && Filled(t, buf, i, ram, ram0, data, from)
    requires 0 < n && i + n <= size && InRam(t, buf, size, |ram|)
    requires IsMapped(t, buf + i) && n <= Lookup(t, buf + i).size
    requires RunStored(ram, ram1, Pa(t, buf + i), n, data, from + i)
    ensures Filled(t, buf, i + n, ram1, ram0, data, from)
  {
    hide WellFormed;
    hide Lookup;
    hide Touches;
    hide Last;
    hide InRam;
    hide IsMapped;
    hide Pa;
    forall va | buf <= va < buf + i + n
      ensures IsMapped(t, va) && Pa(t, va) < |ram1|
      ensures Last(t, buf, i + n, va) ==> ram1[Pa(t, va)] == data[from + (va - buf)]
    {
      FilledByte(t, buf, size, i, n, ram, ram1, ram0, data, from, va);
    }
    forall p | 0 <= p < |ram1| && !Touches(t, buf, i + n, p)
      ensures ram1[p] == ram0[p]
    {
      RunTouches(t, buf + i, n, p);
      TouchesMore(t, buf, i, n, p);
    }
  }

  /** Fills the buffer from the file: on success, the first n bytes of the buffer hold the next n bytes of the file. */
  method SysRead(pt: Space, ram: array<Byte>, fd: FdArg, buf: nat, size: nat, ghost t: Tree) returns (r: IoResult)
    requires pt.Valid() && pt.T() == t && WellFormed(t)
    requires InRam(t, buf, size, ram.Length)
    modifies ram, if fd.Open? then {fd.file} else {}
    ensures (r == EBadF <==> fd.Closed?) && (r == EPerm <==> fd.Without?)
    ensures fd.Open? && buf >= (if pt.Arm64? then 0x1_0000_0000_0000 else 0x8000_0000_0000) ==> r == EFault
    ensures fd.Open? && buf < (if pt.Arm64? then 0x1_0000_0000_0000 else 0x8000_0000_0000) && Writable(t, buf, size) ==>
              r.Count?
    // it fails exactly at a byte that is not writable while the file has not ended before it, and reads up to there
    ensures fd.Open? && buf < pt.UserEnd() ==>
              (r == EFault <==>
               exists va :: buf <= va < buf + size && va - buf <= old(fd.file.Left()) && !Lookup(t, va).perm.write
                            && forall w :: buf <= w < va ==> Lookup(t, w).perm.write)
    ensures fd.Open? && buf < pt.UserEnd() && r == EFault ==>
              exists va :: buf <= va < buf + size && !Lookup(t, va).perm.write
                           && (forall w :: buf <= w < va ==> Lookup(t, w).perm.write)
                           && fd.file.pos == old(fd.file.pos) + (va - buf)
                           && Filled(t, buf, va - buf, ram[..], old(ram[..]), fd.file.data, old(fd.file.pos))
    ensures r.Count? ==> forall va :: buf <= va < buf + r.n ==> Lookup(t, va).perm.write
    ensures r.Count? ==> fd.Open? && r.n == Min(size, old(fd.file.Left())) && fd.file.pos == old(fd.file.pos) + r.n
                         && Filled(t, buf, r.n, ram[..], old(ram[..]), fd.file.data, old(fd.file.pos))
    ensures !r.Count? ==> forall p :: 0 <= p < ram.Length && !Touches(t, buf, size, p) ==> ram[p] == old(ram[p])
  {
    hide Space.Valid;
    hide Space.T;
    hide Find;
    hide WellFormed;
    hide Lookup;
    hide Filled;
    hide InRam;
    hide Touches;
    hide Arm64Vm.Pagetable.Valid;
    hide Arm64Vm.Pagetable.T;
    hide Amd64Vm.Pagetable.Valid;
    hide Amd64Vm.Pagetable.T;
    if fd.Closed? {
      return EBadF;
    } else if fd.Without? {
      return EPerm;
    }
    var file := fd.file;
    if buf >= pt.UserEnd() {
      return EFault;
    }
    ghost var ram0, from, left := ram[..], file.pos, file.Left();
    FilledNone(t, buf, ram0, file.data, from);
    var i, rest := 0, size;
    while rest > 0
      invariant 0 <= rest && i + rest == size && pt.Valid() && pt.T() == t
      invariant file.pos == from + i && i <= left && Filled(t, buf, i, ram[..], ram0, file.data, from)
      invariant Writable(t, buf, i)
    {
      var m := pt.VmLookup(buf + i, t);
      if !m.perm.write {
        FilledOutside(t, buf, i, size, ram[..], ram0, file.data, from);
        return EFault;
      }
      WriteIsValid(t, buf + i);
      var want := Min(rest, m.size);
      WritableMore(t, buf, i, want);
      RunInRam(t, buf, size, i, want, ram.Length);
      ghost var ram1 := ram[..];
      var n := file.Read(ram, m.pa, want);
      if n > 0 {
        assert RunStored(ram1, ram[..], m.pa, n, file.data, from + i);
        FilledNext(t, buf, size, i, n, ram1, ram[..], ram0, file.data, from);
      } else {
        assert ram[..] == ram1;
      }
      i := i + n;
      if n < want {
        break;
      }
      rest := rest - n;
    }
    r := Count(i);
  }

  /** A lookup with write permission gives it for all the bytes that it covers. */
  lemma WritableMore(t: Tree, buf: nat, i: nat, n: nat)
    requires WellFormed(t) && Writable(t, buf, i) && Lookup(t, buf + i).perm.write && n <= Lookup(t, buf + i).size
    requires IsMapped(t, buf + i)
    ensures Writable(t, buf, i + n)
  {
    hide WellFormed;
    hide Lookup;
    forall va | buf <= va < buf + i + n
      ensures Lookup(t, va).perm.write
    {
      if va >= buf + i {
        LookupContiguous(t, buf + i, va - (buf + i));
      }
    }
  }

  lemma ReadableMore(t: Tree, buf: nat, i: nat, n: nat)
    requires WellFormed(t) && Readable(t, buf, i) && Lookup(t, buf + i).perm.read && n <= Lookup(t, buf + i).size
    requires IsMapped(t, buf + i)
    ensures Readable(t, buf, i + n)
  {
    hide WellFormed;
    hide Lookup;
    forall va | buf <= va < buf + i + n
      ensures Lookup(t, va).perm.read
    {
      if va >= buf + i {
        LookupContiguous(t, buf + i, va - (buf + i));
      }
    }
  }

  lemma FilledNone(t: Tree, buf: nat, ram: seq<Byte>, data: seq<Byte>, from: nat)
    requires WellFormed(t)
    ensures Filled(t, buf, 0, ram, ram, data, from)
  {
    hide WellFormed;
  }

  lemma FilledOutside(t: Tree, buf: nat, i: nat, size: nat, ram: seq<Byte>, ram0: seq<Byte>, data: seq<Byte>, from: nat)
    requires WellFormed(t) && i <= size && Filled(t, buf, i, ram, ram0, data, from)
    ensures forall p :: 0 <= p < |ram| && !Touches(t, buf, size, p) ==> ram[p] == ram0[p]
  {
    hide WellFormed;
    hide Lookup;
    forall p | 0 <= p < |ram| && !Touches(t, buf, size, p)
      ensures ram[p] == ram0[p]
    {
      TouchesMore(t, buf, i, size - i, p);
    }
  }

  /** Write permission is only ever reported for a valid mapping. */
  lemma WriteIsValid(t: Tree, va: nat)
    requires WellFormed(t) && (Lookup(t, va).perm.write || Lookup(t, va).perm.read)
    ensures IsMapped(t, va) && Lookup(t, va).size > 0
  {
    hide WellFormed;
    LookupIsTranslation(t, va);
  }

  lemma RunInRam(t: Tree, buf: nat, size: nat, i: nat, n: nat, ram: int)
    requires WellFormed(t) && InRam(t, buf, size, ram) && i + n <= size && 0 < n
    requires IsMapped(t, buf + i) && n <= Lookup(t, buf + i).size
    ensures Pa(t, buf + i) + n <= ram
  {
    hide WellFormed;
    hide Lookup;
    RunOfBytes(t, buf + i, n);
    assert Pa(t, buf + i + n - 1) == Pa(t, buf + i) + n - 1;
  }

  /** out holds the bytes at i user addresses from buf on. */
  ghost predicate Drained(t: Tree, buf: nat, i: nat, ram: seq<Byte>, out: seq<Byte>)
    requires WellFormed(t)
  {
    && |out| == i
    && forall va :: buf <= va < buf + i ==> IsMapped(t, va) && Pa(t, va) < |ram| && out[va - buf] == ram[Pa(t, va)]
  }

  lemma DrainedNext(t: Tree, buf: nat, size: nat, i: nat, n: nat, ram: seq<Byte>, out: seq<Byte>)
    requires WellFormed(t) && Drained(t, buf, i, ram, out) && IsMapped(t, buf + i)
    requires i + n <= size && n <= Lookup(t, buf + i).size && Pa(t, buf + i) + n <= |ram|
    ensures Drained(t, buf, i + n, ram, out + ram[Pa(t, buf + i)..Pa(t, buf + i) + n])
  {
    hide WellFormed;
    hide Lookup;
    RunOfBytes(t, buf + i, n);
  }

  /** Writes the buffer to the file: on success, the file got the first n bytes of the buffer. */
  method SysWrite(pt: Space, ram: array<Byte>, fd: FdArg, buf: nat, size: nat, ghost t: Tree)
    returns (r: IoResult, ghost out: seq<Byte>)
    requires pt.Valid() && pt.T() == t && WellFormed(t)
    requires InRam(t, buf, size, ram.Length)
    modifies if fd.Open? then {fd.file} else {}
    ensures (r == EBadF <==> fd.Closed?) && (r == EPerm <==> fd.Without?)
    ensures fd.Open? && buf >= (if pt.Arm64? then 0x1_0000_0000_0000 else 0x8000_0000_0000) ==> r == EFault
    ensures fd.Open? && buf < (if pt.Arm64? then 0x1_0000_0000_0000 else 0x8000_0000_0000) && Readable(t, buf, size) ==>
              r.Count?
    // it fails exactly at a byte that is not readable while the file takes all before it, and writes up to there
    ensures fd.Open? && buf < pt.UserEnd() ==>
              (r == EFault <==>
               exists va :: buf <= va < buf + size && va - buf <= old(fd.file.room) && !Lookup(t, va).perm.read
                            && forall w :: buf <= w < va ==> Lookup(t, w).perm.read)
    ensures fd.Open? && buf < pt.UserEnd() && r == EFault ==>
              exists va :: buf <= va < buf + size && !Lookup(t, va).perm.read && |out| == va - buf
                           && forall w :: buf <= w < va ==> Lookup(t, w).perm.read
    ensures r.Count? ==> forall va :: buf <= va < buf + r.n ==> Lookup(t, va).perm.read
    ensures fd.Open? ==> fd.file.written == old(fd.file.written) + out && |out| <= size && Drained(t, buf, |out|, ram[..], out)
    ensures fd.Open? ==> forall va :: buf <= va < buf + |out| ==>
              Lookup(t, va).valid && Lookup(t, va).pa < ram.Length && out[va - buf] == ram[Lookup(t, va).pa]
    ensures r.Count? ==> fd.Open? && r.n == |out| == Min(size, old(fd.file.room))
  {
    hide Space.Valid;
    hide Space.T;
    hide Find;
    hide WellFormed;
    hide Lookup;
    hide Drained;
    hide InRam;
    hide Arm64Vm.Pagetable.Valid;
    hide Arm64Vm.Pagetable.T;
    hide Amd64Vm.Pagetable.Valid;
    hide Amd64Vm.Pagetable.T;
    out := [];
    assert Drained(t, buf, 0, ram[..], []) by { DrainedNone(t, buf, ram[..]); }
    if fd.Closed? {
      return EBadF, out;
    } else if fd.Without? {
      return EPerm, out;
    }
    var file := fd.file;
    if buf >= pt.UserEnd() {
      DrainedMeans(t, buf, 0, ram[..], out);
      return EFault, out;
    }
    var i, rest := 0, size;
    while rest > 0
      invariant 0 <= rest && i + rest == size && pt.Valid() && pt.T() == t && |out| == i
      invariant file.written == old(fd.file.written) + out && file.room + i == old(fd.file.room)
      invariant Drained(t, buf, i, ram[..], out) && Readable(t, buf, i)
    {
      var m := pt.VmLookup(buf + i, t);
      if !m.perm.read {
        DrainedMeans(t, buf, i, ram[..], out);
        return EFault, out;
      }
      WriteIsValid(t, buf + i);
      var want := Min(rest, m.size);
      ReadableMore(t, buf, i, want);
      RunInRam(t, buf, size, i, want, ram.Length);
      var n := file.Write(ram, m.pa, want);
      DrainedNext(t, buf, size, i, n, ram[..], out);
      out := out + ram[m.pa..m.pa + n];
      assert ram[..][m.pa..m.pa + n] == ram[m.pa..m.pa + n];
      i := i + n;
      if n < want {
        break;
      }
      rest := rest - n;
    }
    DrainedMeans(t, buf, i, ram[..], out);
    r := Count(i);
  }

  lemma DrainedMeans(t: Tree, buf: nat, i: nat, ram: seq<Byte>, out: seq<Byte>)
    requires WellFormed(t) && Drained(t, buf, i, ram, out)
    ensures |out| == i
    ensures forall va :: buf <= va < buf + i ==>
              Lookup(t, va).valid && Lookup(t, va).pa < |ram| && out[va - buf] == ram[Lookup(t, va).pa]
  {
    hide WellFormed;
    hide Lookup;
    forall va | buf <= va < buf + i
      ensures Lookup(t, va).valid && Lookup(t, va).pa < |ram| && out[va - buf] == ram[Lookup(t, va).pa]
    {
      assert IsMapped(t, va);
    }
  }

  lemma DrainedNone(t: Tree, buf: nat, ram: seq<Byte>)
    requires WellFormed(t)
    ensures Drained(t, buf, 0, ram, [])
  {
  }

  // In the address space of a process.

  /** The physical address of a byte. */
  lemma PaOf(t: Tree, va: nat)
    requires WellFormed(t) && IsMapped(t, va)
    ensures Translate(t, Page(va)).Some? && Pa(t, va) == Translate(t, Page(va)).value.pa + va % PAGESIZE
  {
    hide WellFormed;
    hide Find;
    hide Lookup;
    hide Translate;
    hide Page;
    LookupIsTranslation(t, va);
  }

  const SPAN: nat := PAGES * PAGESIZE // how far addresses are told apart

  /** Where every page has a frame of its own, all mapped bytes lie in memory, and no two bytes of a buffer share a
      place, unless the buffer is longer than the addresses that a table tells apart. */
  lemma FramesGive(t: Tree, ram: nat, buf: nat, size: nat)
    requires ProcVm.Frames(t, ram)
    ensures WellFormed(t) && InRam(t, buf, size, ram) && (size <= SPAN ==> Injective(t, buf, size))
  {
    hide WellFormed;
    hide Lookup;
    hide Translate;
    hide Page;
    forall va | buf <= va < buf + size && IsMapped(t, va)
      ensures Pa(t, va) < ram
    {
      PaOf(t, va);
    }
    if size <= SPAN {
      forall va, w | buf <= va < w < buf + size && IsMapped(t, va) && IsMapped(t, w)
        ensures Pa(t, va) != Pa(t, w)
      {
        PaOf(t, va);
        PaOf(t, w);
        PagesApart(t, ram, va, w);
      }
    }
  }

  lemma PagesApart(t: Tree, ram: nat, va: nat, w: nat)
    requires ProcVm.Frames(t, ram) && va < w < va + SPAN
    requires Translate(t, Page(va)).Some? && Translate(t, Page(w)).Some?
    ensures Translate(t, Page(va)).value.pa + va % PAGESIZE != Translate(t, Page(w)).value.pa + w % PAGESIZE
  {
    hide WellFormed;
    hide Translate;
    hide Page;
    var p, q := Page(va), Page(w);
    if p != q {
      var a, b := Translate(t, p).value.pa, Translate(t, q).value.pa;
      assert if p < q then a != b else b != a;
      FramesApart(a, b, va % PAGESIZE, w % PAGESIZE);
    } else {
      SamePage(va, w);
    }
  }

  /** Two addresses in one page, not too far apart, have different offsets. */
  lemma SamePage(va: nat, w: nat)
    requires va < w < va + SPAN && Page(va) == Page(w)
    ensures va % PAGESIZE != w % PAGESIZE
  {
    var a, b := va / PAGESIZE, w / PAGESIZE;
    var k := b / PAGES - a / PAGES;
    assert b - a == PAGES * k;
    assert va % PAGESIZE == w % PAGESIZE ==> w - va == PAGESIZE * (b - a);
    assert k >= 1 ==> PAGES * k >= PAGES;
  }

  lemma FramesApart(a: nat, b: nat, x: nat, y: nat)
    requires a != b && a % PAGESIZE == 0 && b % PAGESIZE == 0 && x < PAGESIZE && y < PAGESIZE
    ensures a + x != b + y
  {
  }

  /** sys_read of a process: its invariant is all that is needed.  The n bytes from buf on are the next n of the file,
      and the address space is as it was. */
  method ReadInto(p: ProcVm.Proc, fd: FdArg, buf: nat, size: nat) returns (r: IoResult)
    requires p.Valid() && p.VmInv()
    modifies p.ram, if fd.Open? then {fd.file} else {}
    ensures p.Valid() && p.VmInv() && p.pt.T() == old(p.pt.T())
    ensures (r == EBadF <==> fd.Closed?) && (r == EPerm <==> fd.Without?)
    ensures fd.Open? && buf >= 0x1_0000_0000_0000 ==> r == EFault
    ensures fd.Open? && buf < 0x1_0000_0000_0000 && Writable(p.pt.T(), buf, size) ==> r.Count?
    ensures fd.Open? && buf < 0x1_0000_0000_0000 ==>
              (r == EFault <==>
               exists va :: buf <= va < buf + size && va - buf <= old(fd.file.Left()) && !Lookup(p.pt.T(), va).perm.write
                            && forall w :: buf <= w < va ==> Lookup(p.pt.T(), w).perm.write)
    // a buffer in the heap, or in areas of the mmap area, never faults
    ensures fd.Open? && 0x1_0000_0000 <= buf && buf + size <= p.brk ==> r.Count?
    ensures fd.Open? && size > 0 && (forall va :: buf <= va < buf + size ==> Has(p.V(), va)) ==> r.Count?
    ensures r.Count? ==> forall va :: buf <= va < buf + r.n ==> Lookup(p.pt.T(), va).perm.write
    ensures r.Count? ==>
              && fd.Open? && r.n == Min(size, old(fd.file.Left())) && fd.file.pos == old(fd.file.pos) + r.n
              && Filled(p.pt.T(), buf, r.n, p.ram[..], old(p.ram[..]), fd.file.data, old(fd.file.pos))
              && (r.n <= SPAN ==>
                    forall va :: buf <= va < buf + r.n ==>
                      && Lookup(p.pt.T(), va).valid && Lookup(p.pt.T(), va).pa < p.ram.Length
                      && p.ram[Lookup(p.pt.T(), va).pa] == fd.file.data[old(fd.file.pos) + (va - buf)])
    ensures !r.Count? ==>
              forall q :: 0 <= q < p.ram.Length && !Touches(p.pt.T(), buf, size, q) ==> p.ram[q] == old(p.ram[q])
  {
    hide WellFormed;
    hide Only4K;
    hide Lookup;
    hide InRam;
    hide Injective;
    hide IsMapped;
    hide Touches;
    hide Last;
    hide ProcVm.VmOk;
    hide Vmas.StartsAligned;
    hide Arm64Vm.Pagetable.Valid;
    hide Arm64Vm.Pagetable.T;
    ghost var t := p.pt.T();
    InvFrames(t, p.V(), p.brk, p.top, p.ram.Length);
    FramesGive(t, p.ram.Length, buf, size);
    OwnBuffer(t, p.V(), p.brk, p.top, p.ram.Length, buf, size);
    r := SysRead(Arm64(p.pt), p.ram, fd, buf, size, t);
    if r.Count? && r.n <= SPAN {
      FramesGive(t, p.ram.Length, buf, r.n);
      FilledInjective(t, buf, r.n, p.ram[..], old(p.ram[..]), fd.file.data, old(fd.file.pos));
    }
  }

  /** sys_write of a process, from its invariant alone: the file got the n bytes from buf on. */
  method WriteFrom(p: ProcVm.Proc, fd: FdArg, buf: nat, size: nat) returns (r: IoResult, ghost out: seq<Byte>)
    requires p.Valid() && p.VmInv()
    modifies if fd.Open? then {fd.file} else {}
    ensures p.Valid() && p.VmInv() && p.pt.T() == old(p.pt.T())
    ensures (r == EBadF <==> fd.Closed?) && (r == EPerm <==> fd.Without?)
    ensures fd.Open? && buf >= 0x1_0000_0000_0000 ==> r == EFault
    ensures fd.Open? && buf < 0x1_0000_0000_0000 && Readable(p.pt.T(), buf, size) ==> r.Count?
    ensures fd.Open? && buf < 0x1_0000_0000_0000 ==>
              (r == EFault <==>
               exists va :: buf <= va < buf + size && va - buf <= old(fd.file.room) && !Lookup(p.pt.T(), va).perm.read
                            && forall w :: buf <= w < va ==> Lookup(p.pt.T(), w).perm.read)
    // a buffer in the heap, or in areas of the mmap area, never faults
    ensures fd.Open? && 0x1_0000_0000 <= buf && buf + size <= p.brk ==> r.Count?
    ensures fd.Open? && size > 0 && (forall va :: buf <= va < buf + size ==> Has(p.V(), va)) ==> r.Count?
    ensures r.Count? ==> forall va :: buf <= va < buf + r.n ==> Lookup(p.pt.T(), va).perm.read
    ensures fd.Open? ==> fd.file.written == old(fd.file.written) + out && |out| <= size
    ensures fd.Open? ==> forall va :: buf <= va < buf + |out| ==>
              && Lookup(p.pt.T(), va).valid && Lookup(p.pt.T(), va).pa < p.ram.Length
              && out[va - buf] == p.ram[Lookup(p.pt.T(), va).pa]
    ensures r.Count? ==> fd.Open? && r.n == |out| == Min(size, old(fd.file.room))
  {
    hide WellFormed;
    hide Only4K;
    hide Lookup;
    hide InRam;
    hide Injective;
    hide IsMapped;
    hide Drained;
    hide Readable;
    hide ProcVm.VmOk;
    hide Vmas.StartsAligned;
    hide Arm64Vm.Pagetable.Valid;
    hide Arm64Vm.Pagetable.T;
    ghost var t := p.pt.T();
    InvFrames(t, p.V(), p.brk, p.top, p.ram.Length);
    FramesGive(t, p.ram.Length, buf, size);
    OwnBuffer(t, p.V(), p.brk, p.top, p.ram.Length, buf, size);
    r, out := SysWrite(Arm64(p.pt), p.ram, fd, buf, size, t);
  }

  /** What brk and mmap gave a process, it can read and write. */
  lemma OwnBuffer(t: Tree, v: Vmas.Used, brk: nat, top: nat, ram: nat, buf: nat, size: nat)
    requires ProcVm.VmOk(t, v, brk, top, ram)
    ensures 0x1_0000_0000 <= buf && buf + size <= brk ==> Writable(t, buf, size) && Readable(t, buf, size)
    ensures size > 0 && (forall va :: buf <= va < buf + size ==> Has(v, va)) ==>
              buf < 0x1_0000_0000_0000 && Writable(t, buf, size) && Readable(t, buf, size)
  {
    hide WellFormed;
    hide Lookup;
    hide ProcVm.Frames;
    hide ProcVm.Synced;
    hide ProcVm.BrkOk;
    hide Good;
    if 0x1_0000_0000 <= buf && buf + size <= brk {
      forall va | buf <= va < buf + size
        ensures Lookup(t, va).perm.write && Lookup(t, va).perm.read
      {
        ProcVm.HeapLookup(t, brk, top, va);
      }
    }
    if size > 0 && forall va :: buf <= va < buf + size ==> Has(v, va) {
      forall va | buf <= va < buf + size
        ensures Lookup(t, va).perm.write && Lookup(t, va).perm.read && va < 0xF0_0000_0000
      {
        assert Has(v, va);
        AreaByte(t, v, va);
      }
      assert Has(v, buf);
    }
  }

  lemma AreaByte(t: Tree, v: Vmas.Used, va: nat)
    requires WellFormed(t) && ProcVm.Synced(t, v) && Vmas.Proper(v) && Has(v, va)
    ensures va < 0xF0_0000_0000 && Lookup(t, va).perm == Perm(true, true, true, true, false)
  {
    hide WellFormed;
    hide Lookup;
    hide ProcVm.Synced;
    hide Good;
    var i :| 0 <= i < |v| && v[i].Has(va);
    Vmas.InBoundsAt(v, i);
    ProcVm.AreaLookup(t, v, va);
  }

  /** mmap and then read into the new mapping: the read is complete, and the next lookup of each byte finds it. */
  method MmapThenRead(p: ProcVm.Proc, length: nat, prot: int, flags: int, block: Option<nat>, fd: FdArg, skip: nat,
                      size: nat)
    returns (mapped: ProcVm.Outcome, addr: nat, r: IoResult)
    requires p.Valid() && p.VmInv() && length > 0 && fd.Open? && size > 0 && skip + size <= length
    requires ProcVm.Usable(block, CeilPg(length), p.pt.T(), p.ram.Length)
    modifies p.pt, p.ram, p.vmas.intervals, p.vmas.intervals.data, p.freeVmas.intervals, p.freeVmas.intervals.data
    modifies fd.file
    ensures p.Valid()
    ensures mapped == ProcVm.Ok ==>
              && r == Count(Min(size, old(fd.file.Left())))
              && forall va :: addr + skip <= va < addr + skip + r.n ==>
                   && Lookup(p.pt.T(), va).valid && Lookup(p.pt.T(), va).pa < p.ram.Length
                   && p.ram[Lookup(p.pt.T(), va).pa] == fd.file.data[old(fd.file.pos) + (va - (addr + skip))]
  {
    hide WellFormed;
    hide Only4K;
    hide Lookup;
    hide Filled;
    hide Touches;
    hide Overrides;
    hide Lacking;
    hide CeilPg;
    hide Vmas.Overridden;
    hide Vmas.NoneMeets;
    hide Vmas.Partition;
    hide Vmas.StartsAligned;
    hide ProcVm.Usable;
    hide ProcVm.FilledFrom;
    hide ProcVm.Spot;
    hide ProcVm.VmOk;
    hide Arm64Vm.Pagetable.Valid;
    hide Arm64Vm.Pagetable.T;
    var oom;
    mapped, oom, addr := p.MapVmaAny(length, prot, flags, ProcVm.NoFile, 0, block);
    r := EFault;
    if mapped == ProcVm.Ok {
      assert Writable(p.pt.T(), addr + skip, size);
      r := ReadInto(p, fd, addr + skip, size);
    }
  }

  lemma InvFrames(t: Tree, v: Vmas.Used, brk: nat, top: nat, ram: nat)
    requires ProcVm.VmOk(t, v, brk, top, ram)
    ensures ProcVm.Frames(t, ram)
  {
  }
}
