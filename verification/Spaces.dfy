/** An address space in either page-table format: the code of rekernel/vm.d and rekernel/syscall.d is compiled
    against one or the other. */
module Spaces {
  import opened Base
  import opened PageTree
  import Arm64Vm
  import Amd64Vm

  /** Whether a walk that stops at this entry returns it: an arm64 walk that meets a hole above the 4 KB level
      returns null instead. */
  ghost predicate Jumps(arm: bool, h: Hit) {
    !arm || h.level == 0 || !h.entry.Hole?
  }

  /** What a walk to va from the 4 KB level reports. */
  ghost predicate StopsAt(arm: bool, t: Tree, va: nat, entry: Option<(nat, nat)>, lvl: nat, valid: bool) {
    WellFormed(t) &&
    var h := Find(t, Page(va));
    && lvl == h.level && valid == h.entry.Leaf?
    && entry == if Jumps(arm, h) then Some((h.node, h.slot)) else None
  }

  datatype Space = Arm64(a: Arm64Vm.Pagetable) | Amd64(b: Amd64Vm.Pagetable)
  {
    ghost predicate Valid()
      reads match this case Arm64(a) => {a as object} case Amd64(b) => {b as object}
    {
      match this case Arm64(a) => a.Valid() case Amd64(b) => b.Valid()
    }

    ghost function T(): Tree
      requires Valid()
      reads match this case Arm64(a) => {a as object} case Amd64(b) => {b as object}
    {
      match this case Arm64(a) => a.T() case Amd64(b) => b.T()
    }

    /** pt.walk(va, lvl) from lvl = LEVEL_4K: the entry or null, its level, and whether it is valid. */
    method Walk(va: nat, ghost t: Tree) returns (entry: Option<(nat, nat)>, lvl: nat, valid: bool)
      requires Valid() && T() == t
      ensures StopsAt(Arm64?, t, va, entry, lvl, valid)
    {
      hide WellFormed;
      hide Find;
      hide FindTo;
      hide Only4K;
      hide Amd64Vm.LargeAtUserEnd;
      hide Arm64Vm.Pagetable.Valid;
      hide Arm64Vm.Pagetable.T;
      hide Amd64Vm.Pagetable.Valid;
      hide Amd64Vm.Pagetable.T;
      FindToStops(t, Page(va), 0);
      match this {
        case Arm64(a) =>
          var r, end := a.Walk(va, 0);
          lvl := end;
          if r.None? {
            return None, lvl, false;
          }
          a.Entry(r.value.node, r.value.slot);
          entry, valid := Some((r.value.node, r.value.slot)), a.mem[r.value.node][r.value.slot].valid;
        case Amd64(b) =>
          var r, end := b.Walk(va, 0);
          b.Entry(r.node, r.slot);
          entry, lvl, valid := Some((r.node, r.slot)), end, b.mem[r.node][r.slot].p;
      }
    }

    method VmLookup(va: nat, ghost t: Tree) returns (m: VmMap)
      requires Valid() && T() == t
      ensures WellFormed(t) && m == Lookup(t, va)
    {
      hide WellFormed;
      hide Lookup;
      match this {
        case Arm64(a) => m := a.VmLookup(va);
        case Amd64(b) => m := b.VmLookup(va);
      }
    }

    /** The first address that is not the user's. */
    function UserEnd(): (end: nat)
      ensures end == if Arm64? then 0x1_0000_0000_0000 else 0x8000_0000_0000
    {
      if Arm64? then Arm64Vm.USER_END else Amd64Vm.USER_END
    }
  }
}
