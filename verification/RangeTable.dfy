/** The debugger's hand-written range table, against the page tables it stands in for. */
module RangeTable {
  import opened Words
  import opened Bits
  import opened GuestMemory
  import opened PageWalk
  import opened PageTables
  import opened Windows

  datatype Range = Range(lo: nat, size: nat, target: nat) {
    predicate Holds(v: nat) { lo <= v < lo + size }

    function Target(v: nat): nat
      requires Holds(v)
    {
      v - lo + target
    }
  }

  const SYSTEM := Range(K_VIRT + SYSTEM_BASE, 0x800_0000, SYSTEM_BASE)
  const KERNEL := Range(KRNL_VBASE, 0x800_0000, KRNL_PBASE)
  const HAL_ALIAS := Range(0x1_C000_0000, 0x200_0000, HAL_PBASE)
  const STACK := Range(STACK_VIRT, 0x800_0000, STACK_PBASE)
  const SHARED := Range(KUSER_VIRT, 0x20_0000, KUSER_PBASE)
  const IDENTITY := Range(0, MEM_SIZE, 0)

  /** The translation, range by range in the order the code tries them. */
  function RangeTranslate(v: nat): Option<nat> {
    if SYSTEM.Holds(v) then Some(SYSTEM.Target(v))
    else if KERNEL.Holds(v) then Some(KERNEL.Target(v))
    else if HAL_ALIAS.Holds(v) then Some(HAL_ALIAS.Target(v))
    else if STACK.Holds(v) then Some(STACK.Target(v))
    else if SHARED.Holds(v) then Some(SHARED.Target(v))
    else if IDENTITY.Holds(v) then Some(IDENTITY.Target(v))
    else None
  }

  /** The shared-data range behind its one mapped page. */
  predicate InUserTail(v: nat) { SHARED.Holds(v) && KUSER_VIRT + SIZE_4K <= v }

  /** No address in the low 512 GB is mapped. */
  lemma LowAddressesUnmapped(m: seq<byte>, h: nat, v: nat)
    requires h < 512 && TablesBuilt(m, h) && v < SIZE_512G
    ensures Walk(m, CR3, v) == None
  {
    hide LeafOf, TablesBuilt, Index3, Index2, Index1, MiddleTable, LowTable, PageSize.Offset;
    assert Index4(v) == 0;
    hide Index4;
    LeafIsDenotation(m, h, PathOf(v));
  }

  /** What the page tables make of every address the range table knows. */
  lemma RangesOnTables(m: seq<byte>, h: nat, v: nat)
    requires h < 512 && TablesBuilt(m, h) && RangeTranslate(v).Some?
    ensures v < MEM_SIZE ==> Walk(m, CR3, v) == None
    ensures v >= MEM_SIZE && !InUserTail(v) ==> Walk(m, CR3, v) == RangeTranslate(v)
    ensures InUserTail(v) ==> Walk(m, CR3, v) != RangeTranslate(v)
  {
    hide Walk;
    if v < MEM_SIZE {
      LowAddressesUnmapped(m, h, v);
    } else if K_VIRT <= v < K_VIRT + SIZE_1G {
      KernelWindow(m, h, v - K_VIRT);
    } else if v >= STACK_VIRT {
      StackWindow(m, h, v - STACK_VIRT);
    } else {
      var i, o := (v - KUSER_VIRT) / SIZE_4K, (v - KUSER_VIRT) % SIZE_4K;
      assert v == UserPageAddress(i) + o;
      UserWindow(m, h, i, o);
    }
  }

  /**
   The table refines the walker on the built tables, except exactly on the two listed ranges. Of
   overlapping ranges any will do: each agrees with the walker wherever it holds, save those two.
   */
  lemma RangeTableRefinesWalk(m: seq<byte>, h: nat, v: nat)
    requires h < 512 && TablesBuilt(m, h) && RangeTranslate(v).Some?
    ensures Translate(m, CR3, v) == RangeTranslate(v).value <==> !HAL_ALIAS.Holds(v) && !InUserTail(v)
    ensures forall r | r in [SYSTEM, KERNEL, HAL_ALIAS, STACK, SHARED, IDENTITY] && r.Holds(v) ::
              Translate(m, CR3, v) == r.Target(v) <==> r != HAL_ALIAS && !InUserTail(v)
  {
    hide Walk;
    RangesOnTables(m, h, v);
    if InUserTail(v) && Walk(m, CR3, v).None? {
      assert Translate(m, CR3, v) == v;
    }
  }

  /** What the table knows: guest-physical addresses, 254 MB of the kernel's slot, the stack and the shared data. */
  lemma RangeCoverage(v: nat)
    ensures RangeTranslate(v).Some? <==>
            || v < 0x2_0000_0000
            || 0xFFFF_F800_0020_0000 <= v < 0xFFFF_F800_1000_0000
            || 0xFFFF_FE80_0000_0000 <= v < 0xFFFF_FE80_0800_0000
            || 0xFFFF_F780_0000_0000 <= v < 0xFFFF_F780_0020_0000
  {}

  /** The table never leaves guest memory, so the bounds check behind it cannot fail for one byte. */
  lemma RangeTargetsInMemory(v: nat)
    requires RangeTranslate(v).Some?
    ensures RangeTranslate(v).value < MEM_SIZE
    ensures v < STACK.lo + STACK.size
  {}

  // ----- Breakpoint padding

  method SafeReadBytes(vm: Vm, paddr: nat, size: nat) returns (r: Option<seq<byte>>)
    requires vm.Valid()
    ensures r == if paddr + size > MEM_SIZE then None else Some(vm.Contents()[paddr..paddr + size])
  {
    if paddr + size > MEM_SIZE { return None; }
    return Some(vm.mem[paddr..paddr + size]);
  }

  /** `v` translates, and to an INT 3 byte. */
  predicate IsPadding(m: seq<byte>, v: nat)
    requires |m| == MEM_SIZE
  {
    RangeTranslate(v).Some? && (RangeTargetsInMemory(v); m[RangeTranslate(v).value] == 0xCC)
  }

  /** `stop` is the first address from `start` on that is unmapped or not padding. */
  ghost predicate IsFirstStop(m: seq<byte>, start: nat, stop: nat)
    requires |m| == MEM_SIZE
  {
    start <= stop && !IsPadding(m, stop) && forall v :: start <= v < stop ==> IsPadding(m, v)
  }

  /** The loop ends at the first stop, which is the only one. */
  method SkipPadding(vm: Vm, start: u64) returns (rip: u64)
    requires vm.Valid()
    ensures forall stop :: IsFirstStop(vm.Contents(), start, stop) <==> stop == rip
    ensures forall v: nat :: start <= v < rip ==>
              RangeTranslate(v).Some? && RangeTranslate(v).value < MEM_SIZE && vm.mem[RangeTranslate(v).value] == 0xCC
    ensures var p := RangeTranslate(rip); p.None? || (p.value < MEM_SIZE && vm.mem[p.value] != 0xCC)
  {
    rip := start;
    while true
      invariant start <= rip
      invariant forall v :: start <= v < rip ==> IsPadding(vm.Contents(), v)
      decreases STACK.lo + STACK.size - rip
    {
      match RangeTranslate(rip) {
        case None => break;
        case Some(p) =>
          RangeTargetsInMemory(rip);
          var b := SafeReadBytes(vm, p, 1);
          if b.None? || b.value[0] != 0xCC { break; }
          rip := rip + 1;
      }
    }
    assert IsFirstStop(vm.Contents(), start, rip);
    forall v: nat | start <= v < rip
      ensures RangeTranslate(v).Some? && RangeTranslate(v).value < MEM_SIZE && vm.mem[RangeTranslate(v).value] == 0xCC
    {
      assert IsPadding(vm.Contents(), v);
      RangeTargetsInMemory(v);
    }
    if RangeTranslate(rip).Some? { RangeTargetsInMemory(rip); }
    forall stop: nat | IsFirstStop(vm.Contents(), start, stop)
      ensures stop == rip
    {}
  }

  /** Where the handler looks for the instruction at `rip`. */
  function InstructionAddress(rip: nat): nat {
    match RangeTranslate(rip)
    case Some(p) => p
    case None => rip % 0x2000_0000
  }

  lemma GuessBits(rip: nat)
    ensures And(rip, 0x1FFF_FFFF) == rip % 0x2000_0000
  {
    Pow2OfSum(20, 9);
    LowBits(rip, 29, 0x1FFF_FFFF);
  }

  /** The debug exit: a checked step over INT 3, in one byte or two, or INT 2D at `rip`, and over the padding behind it. */
  method HandleGuestDebug(vm: Vm, rip: u64) returns (next: Outcome<u64>)
    requires vm.Valid()
    ensures var m, p := vm.Contents(), InstructionAddress(rip);
            if p + 2 > MEM_SIZE then next == Done(rip + 1)
            else
              var n := if m[p] == 0xCC then 1
                       else if m[p] == 0xCD && (m[p + 1] == 0x03 || m[p + 1] == 0x2D) then 2 else 0;
              if n == 0 then next == Done(rip)
              else if rip + n >= TWO64 then next == Panic
              else next.Done? && IsFirstStop(m, rip + n, next.value)
  {
    hide And, IsFirstStop, RangeTranslate;
    var phys;
    match RangeTranslate(rip) {
      case Some(p) => phys := p;
      case None =>
        GuessBits(rip);
        phys := And(rip, 0x1FFF_FFFF);
        if phys >= MEM_SIZE { assert false; }
    }
    var opcode := SafeReadBytes(vm, phys, 2);
    if opcode.None? {
      ForcedSkips(rip);
      return Done(rip + 1);
    }
    var op := opcode.value;
    var after;
    if op[0] == 0xCC {
      after := rip + 1;
    } else if op[0] == 0xCD && op[1] == 0x03 {
      after := rip + 2;
    } else if op[0] == 0xCD && op[1] == 0x2D {
      after := rip + 2;
    } else {
      return Done(rip);
    }
    if after >= TWO64 { return Panic; }
    var stop := SkipPadding(vm, after);
    return Done(stop);
  }

  /** The handler's read fails only at the last byte of memory, and its "force +1" for untranslatable rip is dead. */
  lemma ForcedSkips(rip: u64)
    ensures InstructionAddress(rip) + 2 > MEM_SIZE <==> rip == MEM_SIZE - 1
  {
    if RangeTranslate(rip).Some? { RangeTargetsInMemory(rip); }
  }
}
