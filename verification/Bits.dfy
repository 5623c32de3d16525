/** The page-table entries as 64-bit words: the accessors generated by rekernel/core/bits.d on the layout of the arm64
    descriptor, and the flag operations of the amd64 entry.  What the kernel writes with the setters is what it reads
    back with the getters, and the records Arm64Vm.Pte and Amd64Vm.Pte are what the words say: reading a word as a record
    commutes with every store. */
module Bits {
  import opened Base
  import opened PageTree
  import Arm64Vm
  import Amd64Vm

  // arm64: the generated getter and setter of each field, with its offset and mask written out.

  function Valid(w: bv64): bv64 { w & 0x1 }
  function Table(w: bv64): bv64 { (w >> 1) & 0x1 }
  function Index(w: bv64): bv64 { (w >> 2) & 0x7 }
  function Ap(w: bv64): bv64 { (w >> 6) & 0x3 }
  function Sh(w: bv64): bv64 { (w >> 8) & 0x3 }
  function Af(w: bv64): bv64 { (w >> 10) & 0x1 }
  function Addr(w: bv64): bv64 { (w >> 12) & 0xF_FFFF_FFFF }
  function Pxn(w: bv64): bv64 { (w >> 53) & 0x1 }
  function Uxn(w: bv64): bv64 { (w >> 54) & 0x1 }
  function Cow(w: bv64): bv64 { (w >> 55) & 0x1 }

  function SetValid(w: bv64, v: bv64): bv64 { (w & !0x1) | (v & 0x1) }
  function SetTable(w: bv64, v: bv64): bv64 { (w & !(0x1 << 1)) | ((v & 0x1) << 1) }
  function SetIndex(w: bv64, v: bv64): bv64 { (w & !(0x7 << 2)) | ((v & 0x7) << 2) }
  function SetAp(w: bv64, v: bv64): bv64 { (w & !(0x3 << 6)) | ((v & 0x3) << 6) }
  function SetSh(w: bv64, v: bv64): bv64 { (w & !(0x3 << 8)) | ((v & 0x3) << 8) }
  function SetAf(w: bv64, v: bv64): bv64 { (w & !(0x1 << 10)) | ((v & 0x1) << 10) }
  function SetAddr(w: bv64, v: bv64): bv64 { (w & !(0xF_FFFF_FFFF << 12)) | ((v & 0xF_FFFF_FFFF) << 12) }
  function SetPxn(w: bv64, v: bv64): bv64 { (w & !(0x1 << 53)) | ((v & 0x1) << 53) }
  function SetUxn(w: bv64, v: bv64): bv64 { (w & !(0x1 << 54)) | ((v & 0x1) << 54) }
  function SetCow(w: bv64, v: bv64): bv64 { (w & !(0x1 << 55)) | ((v & 0x1) << 55) }

  /** The stores of Pagetable.map to a 4 KB entry, in order; the last five arguments are the values that the
      permission setter computes for valid, cow, pxn, uxn and ap. */
  function MapWord(w: bv64, frame: bv64, valid: bv64, cow: bv64, pxn: bv64, uxn: bv64, ap: bv64): bv64 {
    var w := SetValid(SetAddr(w, frame), 1);
    var w := SetAp(SetUxn(SetPxn(SetCow(SetValid(w, valid), cow), pxn), uxn), ap);
    SetIndex(SetAf(SetSh(SetTable(w, 1), 3), 1), 0)
  }

  /** Each field read back is the value last stored in it, whatever the entry held before. */
  lemma MapWordFields(w: bv64, frame: bv64, valid: bv64, cow: bv64, pxn: bv64, uxn: bv64, ap: bv64)
    ensures var e := MapWord(w, frame, valid, cow, pxn, uxn, ap);
            && Valid(e) == valid & 0x1 && Table(e) == 1 && Addr(e) == frame & 0xF_FFFF_FFFF
            && Cow(e) == cow & 0x1 && Pxn(e) == pxn & 0x1 && Uxn(e) == uxn & 0x1 && Ap(e) == ap & 0x3
            && Index(e) == 0 && Sh(e) == 3 && Af(e) == 1
  {
  }

  /** The whole word: the page descriptor of VMSAv8-64, bit by bit, with the bits that no field covers kept. */
  lemma MapWordLayout(w: bv64, frame: bv64, valid: bv64, cow: bv64, pxn: bv64, uxn: bv64, ap: bv64)
    ensures MapWord(w, frame, valid, cow, pxn, uxn, ap)
            == Descriptor(w, frame, valid & 1, (ap & 3) << 6, (pxn & 1) << 53, (uxn & 1) << 54, (cow & 1) << 55)
  {
  }

  function Bit(b: bool): bv64 { if b then 1 else 0 }

  function ApOf(user: bool, write: bool): bv64 { Bit(user) | (if write then 0 else 2) }

  /** The values the permission setter stores. */
  function MapPerm(w: bv64, frame: bv64, perm: Perm): bv64 {
    MapWord(w, frame, Bit(perm.read), Bit(perm.cow), Bit(!perm.exec), Bit(!perm.exec || !perm.user),
            ApOf(perm.user, perm.write))
  }

  /** The fields that hold permissions, put together with the rest of a page descriptor. */
  function Descriptor(w: bv64, frame: bv64, valid: bv64, ap: bv64, pxn: bv64, uxn: bv64, cow: bv64): bv64 {
    (w & 0xFF1F_0000_0000_0820) | 0x702 | valid | ap | ((frame & 0xF_FFFF_FFFF) << 12) | pxn | uxn | cow
  }

  /** The descriptor of a mapped page in the terms of VMSAv8-64: bit 6 gives the user access, bit 7 takes writing away,
      bits 53 and 54 forbid execution by the kernel and by the user, and bit 55 is left to software. */
  lemma DescriptorLayout(w: bv64, frame: bv64, perm: Perm)
    ensures MapPerm(w, frame, perm)
            == Descriptor(w, frame, if perm.read then 0x1 else 0,
                          if perm.user then (if perm.write then 0x40 else 0xC0) else (if perm.write then 0 else 0x80),
                          if perm.exec then 0 else 0x20_0000_0000_0000,
                          if perm.exec && perm.user then 0 else 0x40_0000_0000_0000,
                          if perm.cow then 0x80_0000_0000_0000 else 0)
  {
    hide MapWord;
    hide Descriptor;
    hide Bit;
    hide ApOf;
    MapWordLayout(w, frame, Bit(perm.read), Bit(perm.cow), Bit(!perm.exec), Bit(!perm.exec || !perm.user),
                  ApOf(perm.user, perm.write));
    BitPlaces(perm.read);
    BitPlaces(perm.cow);
    BitPlaces(!perm.exec);
    BitPlaces(!perm.exec || !perm.user);
    ApPlaces(perm.user, perm.write);
  }

  lemma BitPlaces(b: bool)
    ensures Bit(b) & 1 == if b then 0x1 else 0
    ensures (Bit(b) & 1) << 53 == if b then 0x20_0000_0000_0000 else 0
    ensures (Bit(b) & 1) << 54 == if b then 0x40_0000_0000_0000 else 0
    ensures (Bit(b) & 1) << 55 == if b then 0x80_0000_0000_0000 else 0
  {
  }

  lemma ApPlaces(user: bool, write: bool)
    ensures (ApOf(user, write) & 3) << 6
            == if user then (if write then 0x40 else 0xC0) else (if write then 0 else 0x80)
  {
  }

  /** The permission getter. */
  function GetPerm(w: bv64): Perm {
    Perm(Valid(w) != 0, Ap(w) & 2 == 0, Uxn(w) == 0 || Pxn(w) == 0, Uxn(w) == 0 || Ap(w) & 1 != 0, Cow(w) != 0)
  }

  // amd64: flag bits in the low bits of the address word.

  function SetPa64(w: bv64, pa: bv64): bv64 { pa & !0xFFF }

  function SetFlags64(w: bv64, flags: bv64): bv64 { (w & !0x7) | (flags & 0x7) }

  lemma Entry64Fields(w: bv64, pa: bv64, flags: bv64)
    ensures var e := SetFlags64(SetPa64(w, pa), flags);
            && e & !0xFFF == pa & !0xFFF && e & 0x80 == 0
            && e & 0x1 == flags & 0x1 && e & 0x2 == flags & 0x2 && e & 0x4 == flags & 0x4
  {
  }

  function Flags64(perm: Perm): bv64 {
    (if perm.read then 1 else 0) | (if perm.write then 2 else 0) | (if perm.user then 4 else 0)
  }

  /** The whole amd64 entry: address, present, writable and user bits, and nothing of what was there. */
  lemma Entry64Layout(w: bv64, pa: bv64, perm: Perm)
    ensures SetFlags64(SetPa64(w, pa), Flags64(perm))
            == (pa & 0xFFFF_FFFF_FFFF_F000) | (if perm.read then 0x1 else 0) | (if perm.write then 0x2 else 0)
               | (if perm.user then 0x4 else 0)
  {
  }

  function GetPerm64(w: bv64): Perm {
    Perm(w & 0x1 != 0, w & 0x2 != 0, false, w & 0x4 != 0, false)
  }

  lemma Flags64Bits(read: bool, write: bool, user: bool)
    ensures var f: bv64 := (if read then 1 else 0) | (if write then 2 else 0) | (if user then 4 else 0);
            (f & 0x1 != 0 <==> read) && (f & 0x2 != 0 <==> write) && (f & 0x4 != 0 <==> user)
  {
  }

  /** An amd64 entry reads back as its address and the permissions the format has bits for; execute and
      copy-on-write have none, so the permissions survive exactly when neither was asked for. */
  lemma Perm64ReadsBack(w: bv64, pa: bv64, perm: Perm)
    ensures GetPerm64(SetFlags64(SetPa64(w, pa), Flags64(perm))) == Amd64Vm.Kept(perm)
    ensures GetPerm64(SetFlags64(SetPa64(w, pa), Flags64(perm))) == perm <==> !perm.exec && !perm.cow
    ensures SetFlags64(SetPa64(w, pa), Flags64(perm)) & !0xFFF == pa & !0xFFF
  {
    Entry64Fields(w, pa, Flags64(perm));
    hide SetFlags64;
    hide SetPa64;
    Flags64Bits(perm.read, perm.write, perm.user);
  }

  // The numbers that words stand for.

  function Bit0(w: bv64): nat { if w & 1 == 1 then 1 else 0 }

  function Half(w: bv64): bv64 { w >> 1 }

  function Frame(w: bv64): bv64 { w >> 12 }

  function Masked(w: bv64, m: bv64): bv64 { w & m }

  /** The number that the low n bits of a word stand for. */
  function Nat(w: bv64, n: nat): nat {
    if n == 0 then 0 else Bit0(w) + 2 * Nat(Half(w), n - 1)
  }

  function Shifted(w: bv64, n: nat): bv64 {
    if n == 0 then w else Shifted(Half(w), n - 1)
  }

  function Two(n: nat): nat { if n == 0 then 1 else 2 * Two(n - 1) }

  lemma {:induction false} NatBound(w: bv64, n: nat)
    ensures Nat(w, n) < Two(n)
    decreases n
  {
    hide Half;
    if n > 0 {
      NatBound(Half(w), n - 1);
    }
  }

  lemma DoubleSum(t: nat, x: nat)
    ensures 2 * (t * x) == (2 * t) * x
  {
  }

  /** The low n bits and the bits above them. */
  lemma {:induction false} NatSplit(w: bv64, n: nat, k: nat)
    ensures Nat(w, n + k) == Nat(w, n) + Two(n) * Nat(Shifted(w, n), k)
    decreases n
  {
    hide Half;
    hide Bit0;
    if n > 0 {
      NatSplit(Half(w), n - 1, k);
      DoubleSum(Two(n - 1), Nat(Shifted(w, n), k));
    }
  }

  ghost predicate LowOnes(m: bv64, n: nat) {
    n == 0 || (Bit0(m) == 1 && LowOnes(Half(m), n - 1))
  }

  lemma MaskStep(w: bv64, m: bv64)
    ensures Half(Masked(w, m)) == Masked(Half(w), Half(m))
    ensures Bit0(m) == 1 ==> Bit0(Masked(w, m)) == Bit0(w)
  {
  }

  lemma {:induction false} NatMask(w: bv64, m: bv64, n: nat)
    requires LowOnes(m, n)
    ensures Nat(Masked(w, m), n) == Nat(w, n)
    decreases n
  {
    hide Half;
    hide Bit0;
    hide Masked;
    if n > 0 {
      MaskStep(w, m);
      NatMask(Half(w), Half(m), n - 1);
    }
  }

  lemma AddrOnes()
    ensures LowOnes(0xF_FFFF_FFFF, 36)
  {
    assert LowOnes(0x3, 2);
    assert LowOnes(0xF, 4);
    assert LowOnes(0x3F, 6);
    assert LowOnes(0xFF, 8);
    assert LowOnes(0x3FF, 10);
    assert LowOnes(0xFFF, 12);
    assert LowOnes(0x3FFF, 14);
    assert LowOnes(0xFFFF, 16);
    assert LowOnes(0x3_FFFF, 18);
    assert LowOnes(0xF_FFFF, 20);
    assert LowOnes(0x3F_FFFF, 22);
    assert LowOnes(0xFF_FFFF, 24);
    assert LowOnes(0x3FF_FFFF, 26);
    assert LowOnes(0xFFF_FFFF, 28);
    assert LowOnes(0x3FFF_FFFF, 30);
    assert LowOnes(0xFFFF_FFFF, 32);
    assert LowOnes(0x3_FFFF_FFFF, 34);
  }

  lemma Powers()
    ensures Two(12) == 4096 && Two(36) == 0x10_0000_0000 && Two(52) == 0x10_0000_0000_0000
  {
    assert Two(4) == 16;
    assert Two(8) == 256;
    assert Two(12) == 4096;
    assert Two(16) == 0x1_0000;
    assert Two(20) == 0x10_0000;
    assert Two(24) == 0x100_0000;
    assert Two(28) == 0x1000_0000;
    assert Two(32) == 0x1_0000_0000;
    assert Two(36) == 0x10_0000_0000;
    assert Two(40) == 0x100_0000_0000;
    assert Two(44) == 0x1000_0000_0000;
    assert Two(48) == 0x1_0000_0000_0000;
  }

  lemma HalfTwelve(w: bv64)
    ensures Half(Half(Half(Half(Half(Half(Half(Half(Half(Half(Half(Half(w)))))))))))) == Frame(w)
  {
  }

  lemma Shifted12(w: bv64)
    ensures Shifted(w, 12) == Frame(w)
  {
    HalfTwelve(w);
    hide Half;
    hide Frame;
    var a := Half(Half(w));
    assert Shifted(w, 12) == Shifted(a, 10);
    var b := Half(Half(a));
    assert Shifted(a, 10) == Shifted(b, 8);
    var c := Half(Half(b));
    assert Shifted(b, 8) == Shifted(c, 6);
    var d := Half(Half(c));
    assert Shifted(c, 6) == Shifted(d, 4);
    var e := Half(Half(d));
    assert Shifted(d, 4) == Shifted(e, 2);
    assert Shifted(e, 2) == Shifted(Half(e), 1);
    assert Shifted(Half(e), 1) == Half(Half(e));
  }

  /** Shifting an address right by 12 bits divides it by the page size. */
  lemma FrameOf(pa: bv64)
    ensures Nat(Frame(pa), 52) == Nat(pa, 64) / PAGESIZE && Nat(Frame(pa), 52) < 0x10_0000_0000_0000
    ensures Nat(Frame(pa), 36) == Nat(pa, 64) / PAGESIZE % 0x10_0000_0000
  {
    hide Nat;
    hide Frame;
    hide Shifted;
    hide Two;
    Powers();
    NatSplit(pa, 12, 52);
    NatBound(pa, 12);
    Shifted12(pa);
    DivModUnique(Nat(pa, 64), PAGESIZE, Nat(Frame(pa), 52), Nat(pa, 12));
    NatBound(Frame(pa), 52);
    NatSplit(Frame(pa), 36, 16);
    NatBound(Frame(pa), 36);
    DivModUnique(Nat(Frame(pa), 52), 0x10_0000_0000, Nat(Shifted(Frame(pa), 36), 16), Nat(Frame(pa), 36));
  }

  /** The address field takes the low 36 bits of the frame. */
  lemma AddrOf(pa: bv64)
    ensures Nat(Masked(Frame(pa), 0xF_FFFF_FFFF), 36) == Nat(pa, 64) / PAGESIZE % 0x10_0000_0000
  {
    hide Nat;
    hide Frame;
    hide Masked;
    AddrOnes();
    hide LowOnes;
    NatMask(Frame(pa), 0xF_FFFF_FFFF, 36);
    FrameOf(pa);
  }

  // arm64: what a word says, as a record.

  function Record(w: bv64): Arm64Vm.Pte {
    Arm64Vm.Pte(On(Valid(w)), On(Table(w)), Nat(Index(w), 3), Nat(Ap(w), 2), Nat(Sh(w), 2), On(Af(w)),
                Nat(Addr(w), 36), On(Pxn(w)), On(Uxn(w)), On(Cow(w)))
  }

  lemma SmallNats()
    ensures Nat(0, 2) == 0 && Nat(1, 2) == 1 && Nat(2, 2) == 2 && Nat(3, 2) == 3 && Nat(0, 3) == 0
  {
  }

  /** A flag bit of a word. */
  predicate On(x: bv64) { x != 0 }

  /** The fields of a mapped entry, as the record has them. */
  lemma MapRecord(w: bv64, frame: bv64, perm: Perm)
    ensures var e := MapPerm(w, frame, perm);
            && On(Valid(e)) == perm.read && On(Table(e)) && On(Af(e)) && On(Cow(e)) == perm.cow
            && On(Pxn(e)) == !perm.exec && On(Uxn(e)) == (!perm.exec || !perm.user)
            && Nat(Ap(e), 2) == (if perm.user then 1 else 0) + (if perm.write then 0 else 2)
            && Nat(Sh(e), 2) == 3 && Nat(Index(e), 3) == 0 && Addr(e) == Masked(frame, 0xF_FFFF_FFFF)
  {
    hide MapWord;
    hide Nat;
    hide Valid;
    hide Table;
    hide Index;
    hide Ap;
    hide Sh;
    hide Af;
    hide Addr;
    hide Pxn;
    hide Uxn;
    hide Cow;
    hide Bit;
    hide Masked;
    hide On;
    hide ApOf;
    var r, c, x, u := perm.read, perm.cow, !perm.exec, !perm.exec || !perm.user;
    var ap := ApOf(perm.user, perm.write);
    assert MapPerm(w, frame, perm) == MapWord(w, frame, Bit(r), Bit(c), Bit(x), Bit(u), ap);
    hide MapPerm;
    MapWordMasked(w, frame, Bit(r), Bit(c), Bit(x), Bit(u), ap);
    BitIs(r);
    BitIs(c);
    BitIs(x);
    BitIs(u);
    ApNat(perm.user, perm.write);
  }

  /** The stores of Pagetable.map to a 4 KB entry, read as a record, are those of the model. */
  lemma MapCommutes(w: bv64, pa: bv64, perm: Perm)
    ensures Record(MapPerm(w, Frame(pa), perm)) == Arm64Vm.LeafPte(Record(w), Nat(pa, 64), perm, 0)
  {
    hide MapPerm;
    hide Nat;
    hide Valid;
    hide Table;
    hide Index;
    hide Ap;
    hide Sh;
    hide Af;
    hide Addr;
    hide Pxn;
    hide Uxn;
    hide Cow;
    hide Frame;
    hide Masked;
    hide On;
    MapRecord(w, Frame(pa), perm);
    AddrOf(pa);
  }

  lemma MapWordMasked(w: bv64, frame: bv64, valid: bv64, cow: bv64, pxn: bv64, uxn: bv64, ap: bv64)
    ensures var e := MapWord(w, frame, valid, cow, pxn, uxn, ap);
            && Valid(e) == Masked(valid, 0x1) && On(Table(e)) && On(Af(e)) && Addr(e) == Masked(frame, 0xF_FFFF_FFFF)
            && Cow(e) == Masked(cow, 0x1) && Pxn(e) == Masked(pxn, 0x1) && Uxn(e) == Masked(uxn, 0x1)
            && Ap(e) == Masked(ap, 0x3) && Nat(Sh(e), 2) == 3 && Nat(Index(e), 3) == 0
  {
    hide MapWord;
    hide Valid;
    hide Table;
    hide Index;
    hide Ap;
    hide Sh;
    hide Af;
    hide Addr;
    hide Pxn;
    hide Uxn;
    hide Cow;
    MapWordFields(w, frame, valid, cow, pxn, uxn, ap);
    SmallNats();
    hide Nat;
  }

  lemma BitIs(b: bool)
    ensures On(Masked(Bit(b), 0x1)) == b
  {
  }

  lemma ApNat(user: bool, write: bool)
    ensures Nat(Masked(ApOf(user, write), 0x3), 2) == (if user then 1 else 0) + (if write then 0 else 2)
  {
    assert Masked(ApOf(user, write), 0x3) == if user then (if write then 1 else 3) else (if write then 0 else 2);
    SmallNats();
    hide Nat;
  }

  /** Linking a new table: pte.pa, pte.valid and pte.table. */
  function LinkWord(w: bv64, frame: bv64): bv64 { SetTable(SetValid(SetAddr(w, frame), 1), 1) }

  lemma LinkWordFields(w: bv64, frame: bv64)
    ensures var e := LinkWord(w, frame);
            && On(Valid(e)) && On(Table(e)) && Addr(e) == Masked(frame, 0xF_FFFF_FFFF) && Index(e) == Index(w)
            && Ap(e) == Ap(w)
  {
  }

  lemma LinkWordOthers(w: bv64, frame: bv64)
    ensures var e := LinkWord(w, frame);
            && Sh(e) == Sh(w) && Af(e) == Af(w) && Pxn(e) == Pxn(w) && Uxn(e) == Uxn(w) && Cow(e) == Cow(w)
  {
  }

  lemma LinkCommutes(w: bv64, pa: bv64)
    ensures Record(LinkWord(w, Frame(pa))) == Arm64Vm.LinkPte(Record(w), Nat(pa, 64))
  {
    hide LinkWord;
    hide Nat;
    hide Valid;
    hide Table;
    hide Index;
    hide Ap;
    hide Sh;
    hide Af;
    hide Addr;
    hide Pxn;
    hide Uxn;
    hide Cow;
    hide Frame;
    hide Masked;
    hide On;
    LinkWordFields(w, Frame(pa));
    LinkWordOthers(w, Frame(pa));
    AddrOf(pa);
  }

  lemma ClearFields(w: bv64)
    ensures var e := SetValid(w, 0);
            && !On(Valid(e)) && Table(e) == Table(w) && Addr(e) == Addr(w) && Index(e) == Index(w)
            && Ap(e) == Ap(w) && Sh(e) == Sh(w) && Af(e) == Af(w) && Pxn(e) == Pxn(w) && Uxn(e) == Uxn(w)
            && Cow(e) == Cow(w)
  {
  }

  /** valid = 0 */
  lemma ClearCommutes(w: bv64)
    ensures Record(SetValid(w, 0)) == Record(w).(valid := false)
  {
    hide Valid;
    hide Table;
    hide Index;
    hide Ap;
    hide Sh;
    hide Af;
    hide Addr;
    hide Pxn;
    hide Uxn;
    hide Cow;
    hide SetValid;
    hide Nat;
    hide On;
    ClearFields(w);
  }

  /** The permission getter reads the record. */
  lemma PermCommutes(w: bv64)
    ensures GetPerm(w) == Record(w).GetPerm()
  {
    ApCases(w);
    hide Ap;
    hide Valid;
    hide Table;
    hide Index;
    hide Sh;
    hide Af;
    hide Addr;
    hide Pxn;
    hide Uxn;
    hide Cow;
    SmallNats();
    hide Nat;
  }

  lemma ApCases(w: bv64)
    ensures Ap(w) == 0 || Ap(w) == 1 || Ap(w) == 2 || Ap(w) == 3
  {
  }

  lemma {:induction false} NatZero(n: nat)
    ensures Nat(0, n) == 0
  {
    if n > 0 {
      NatZero(n - 1);
    }
  }

  lemma {:induction false} ShiftedTwice(w: bv64, n: nat, k: nat)
    ensures Shifted(w, n + k) == Shifted(Shifted(w, n), k)
    decreases n
  {
    hide Half;
    if n > 0 {
      ShiftedTwice(Half(w), n - 1, k);
    }
  }

  lemma AddrShift(w: bv64)
    ensures Frame(Raised(Addr(w))) == Addr(w) && Masked(Raised(Addr(w)), 0xFFF) == 0
    ensures Frame(Frame(Frame(Addr(w)))) == 0
  {
  }

  lemma OffsetOnes()
    ensures LowOnes(0xFFF, 12)
  {
    assert LowOnes(0x3, 2);
    assert LowOnes(0xF, 4);
    assert LowOnes(0x3F, 6);
    assert LowOnes(0xFF, 8);
    assert LowOnes(0x3FF, 10);
  }

  /** An address without an offset is its frame times the page size. */
  lemma NatOfFrame(x: bv64)
    requires Masked(x, 0xFFF) == 0
    ensures Nat(x, 64) == PAGESIZE * Nat(Frame(x), 52)
  {
    hide Nat;
    hide Frame;
    hide Masked;
    hide Shifted;
    hide Two;
    OffsetOnes();
    hide LowOnes;
    NatMask(x, 0xFFF, 12);
    NatZero(12);
    Powers();
    NatSplit(x, 12, 52);
    Shifted12(x);
  }

  lemma NatOfAddr(a: bv64)
    requires Frame(Frame(Frame(a))) == 0
    ensures Nat(a, 52) == Nat(a, 36)
  {
    hide Nat;
    hide Frame;
    hide Shifted;
    hide Two;
    NatSplit(a, 36, 16);
    Shifted12(a);
    Shifted12(Frame(a));
    Shifted12(Frame(Frame(a)));
    ShiftedTwice(a, 12, 24);
    ShiftedTwice(Frame(a), 12, 12);
    NatZero(16);
  }

  function Raised(a: bv64): bv64 { a << 12 }

  /** The address getter reads the record: the field shifted left by 12 bits. */
  lemma PaCommutes(w: bv64)
    ensures Record(w).Pa() == Nat(Raised(Addr(w)), 64)
  {
    AddrShift(w);
    hide Nat;
    hide Frame;
    hide Masked;
    hide Raised;
    hide Addr;
    NatOfFrame(Raised(Addr(w)));
    NatOfAddr(Addr(w));
  }

  /** Every permission set survives the trip through the descriptor, and so does the frame, in 36 bits. */
  lemma PermReadsBack(w: bv64, frame: bv64, perm: Perm)
    ensures GetPerm(MapPerm(w, frame, perm)) == perm
    ensures Addr(MapPerm(w, frame, perm)) == Masked(frame, 0xF_FFFF_FFFF)
  {
    hide MapPerm;
    hide GetPerm;
    hide Nat;
    hide Valid;
    hide Table;
    hide Index;
    hide Ap;
    hide Sh;
    hide Af;
    hide Addr;
    hide Pxn;
    hide Uxn;
    hide Cow;
    hide Masked;
    hide On;
    MapRecord(w, frame, perm);
    PermCommutes(MapPerm(w, frame, perm));
  }

  /** pte.data = 0, and the entries of a new table. */
  lemma ZeroCommutes()
    ensures Record(0) == Arm64Vm.ZERO && Record64(0) == Amd64Vm.ZERO
  {
    NatZero(36);
    NatZero(52);
    NatZero(3);
    NatZero(2);
    hide Nat;
  }

  // amd64: the same.

  function Record64(w: bv64): Amd64Vm.Pte {
    Amd64Vm.Pte(Nat(Frame(w), 52), On(w & 0x1), On(w & 0x2), On(w & 0x4), On(w & 0x80))
  }

  lemma SameFrame(w: bv64, pa: bv64, flags: bv64)
    ensures Frame(SetFlags64(SetPa64(w, pa), flags)) == Frame(pa)
  {
  }

  lemma Map64Commutes(w: bv64, pa: bv64, perm: Perm)
    ensures Record64(SetFlags64(SetPa64(w, pa), Flags64(perm))) == Record64(w).SetPa(Nat(pa, 64)).SetPerm(perm)
  {
    hide Nat;
    hide Frame;
    hide SetFlags64;
    hide SetPa64;
    Entry64Fields(w, pa, Flags64(perm));
    Flags64Bits(perm.read, perm.write, perm.user);
    SameFrame(w, pa, Flags64(perm));
    FrameOf(pa);
    var q := Nat(pa, 64) / PAGESIZE;
    DivModUnique(q, Amd64Vm.FRAME_LIMIT, 0, q);
  }

  lemma Clear64Commutes(w: bv64)
    ensures Record64(w & !0x1) == Record64(w).(p := false)
  {
    hide Nat;
    hide Frame;
    Clear64Fields(w);
  }

  lemma Clear64Fields(w: bv64)
    ensures Frame(w & !0x1) == Frame(w) && (w & !0x1) & 0x1 == 0 && (w & !0x1) & 0x2 == w & 0x2
    ensures (w & !0x1) & 0x4 == w & 0x4 && (w & !0x1) & 0x80 == w & 0x80
  {
  }

  function Pa64(w: bv64): bv64 { w & !0xFFF }

  lemma Pa64Fields(w: bv64)
    ensures Masked(Pa64(w), 0xFFF) == 0 && Frame(Pa64(w)) == Frame(w)
  {
  }

  /** The amd64 address getter reads the record: the word without its low 12 bits. */
  lemma Pa64Commutes(w: bv64)
    ensures Record64(w).Pa() == Nat(Pa64(w), 64)
  {
    hide Nat;
    hide Frame;
    hide Masked;
    hide Pa64;
    Pa64Fields(w);
    NatOfFrame(Pa64(w));
  }

  /** The amd64 permission getter reads the record. */
  lemma Perm64Commutes(w: bv64)
    ensures GetPerm64(w) == Record64(w).GetPerm()
  {
    hide Nat;
  }
}
