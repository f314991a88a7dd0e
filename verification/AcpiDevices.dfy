/** What the tables tell the guest about its devices, against the page tables that lead to them. */
module AcpiDevices {
  import opened Words
  import opened GuestMemory
  import opened PageWalk
  import opened PageTables
  import opened AcpiTree
  import Acpi
  import Windows

  /** The interrupt controller structures of a table, by their own length bytes (ACPI section 5.2.12). */
  function Records(s: seq<byte>): Option<seq<seq<byte>>>
    decreases |s|
  {
    if s == [] then Some([])
    else if |s| < 2 || s[1] < 2 || s[1] > |s| then None
    else
      match Records(s[s[1]..])
      case None => None
      case Some(rest) => Some([s[..s[1]]] + rest)
  }

  lemma OneRecord(r: seq<byte>, rest: seq<byte>)
    requires 2 <= |r| == r[1] && Records(rest).Some?
    ensures Records(r + rest) == Some([r] + Records(rest).value)
  {
    assert (r + rest)[..r[1]] == r && (r + rest)[r[1]..] == rest;
  }

  /**
   The structures fill the declared table exactly: processor, I/O APIC, timer override and NMI, with these
   fields. In the I/O APIC's, the address field (bytes 4 to 7) is 0, and the device's address stands in the
   field behind it, the first interrupt number (ACPI section 5.2.12.3).
   */
  lemma InterruptRecords(m: seq<byte>, p: nat)
    requires p + EXTENT <= |m| && InterruptsAt(m, p)
    ensures var rs := Records(m[p + 0x22C..p + 0x250]);
            && rs.Some? && |rs.value| == 4
            && var cpu, io, timer, nmi := rs.value[0], rs.value[1], rs.value[2], rs.value[3];
               && |cpu| == 8 && cpu[0] == 0 && cpu[4] == 1
               && |io| == 12 && io[0] == 1 && FromLe(io[4..8]) == 0 && FromLe(io[8..12]) == Windows.IOAPIC
               && |timer| == 10 && timer[0] == 2 && timer[3] == 0 && FromLe(timer[4..8]) == 2
               && |nmi| == 6 && nmi[0] == 4 && nmi[2] == 0xFF && nmi[5] == 1
  {
    hide Acpi.IsTable, ToLe, FromLe, Records;
    SliceOfSlice(m, p + 0x200, p + 0x250, 44, 80);
    FourRecords();
    FromLeOf4([0, 0, 0, 0]);
    FromLeOf4([0x00, 0x00, 0xC0, 0xFE]);
    FromLeOf4([2, 0, 0, 0]);
    assert IO_APIC[4..8] == [0, 0, 0, 0] && IO_APIC[8..12] == [0x00, 0x00, 0xC0, 0xFE] && TIMER[4..8] == [2, 0, 0, 0];
    assert m[p + 0x22C..p + 0x250] == Acpi.MADT_ENTRIES;
  }

  const CPU: seq<byte> := [0, 8, 0, 0, 1, 0, 0, 0]
  const IO_APIC: seq<byte> := [1, 12, 1, 0, 0, 0, 0, 0, 0x00, 0x00, 0xC0, 0xFE]
  const TIMER: seq<byte> := [2, 10, 0, 0, 2, 0, 0, 0, 0x05, 0x00]
  const NMI: seq<byte> := [4, 6, 0xFF, 0x05, 0x00, 1]

  /** The structures as the table lists them. */
  lemma FourRecords()
    ensures Records(Acpi.MADT_ENTRIES) == Some([CPU, IO_APIC, TIMER, NMI])
  {
    hide Records;
    Listed();
    NoRecords();
    assert |CPU| == CPU[1] && |IO_APIC| == IO_APIC[1] && |TIMER| == TIMER[1] && |NMI| == NMI[1];
    hide CPU, IO_APIC, TIMER, NMI, Acpi.MADT_ENTRIES;
    OneRecord(NMI, []);
    OneRecord(TIMER, NMI + []);
    OneRecord(IO_APIC, TIMER + (NMI + []));
    OneRecord(CPU, IO_APIC + (TIMER + (NMI + [])));
    assert [CPU] + ([IO_APIC] + ([TIMER] + ([NMI] + []))) == [CPU, IO_APIC, TIMER, NMI];
  }

  lemma Listed()
    ensures Acpi.MADT_ENTRIES == CPU + (IO_APIC + (TIMER + (NMI + [])))
  {}

  lemma NoRecords()
    ensures Records([]) == Some([])
  {}

  // The addresses given for the I/O APIC, the local APIC and the timer

  function IoapicAddress(m: seq<byte>, p: nat): nat
    requires p + EXTENT <= |m|
  {
    FromLe(m[p + 0x238..p + 0x23C])
  }

  function LapicAddress(m: seq<byte>, p: nat): nat
    requires p + EXTENT <= |m|
  {
    FromLe(m[p + 0x224..p + 0x228])
  }

  function HpetAddress(m: seq<byte>, p: nat): nat
    requires p + EXTENT <= |m|
  {
    FromLe(m[p + 0x47C..p + 0x484])
  }

  lemma AddressesRead(m: seq<byte>, p: nat)
    requires p + EXTENT <= |m| && InterruptsAt(m, p) && TimerAt(m, p)
    ensures IoapicAddress(m, p) == 0
    ensures LapicAddress(m, p) == Windows.LAPIC && HpetAddress(m, p) == Windows.HPET
  {
    hide Acpi.IsTable, ToLe, FromLe;
    assert Pow256(4) == 0x1_0000_0000 && Pow256(8) == TWO64;
    SliceOfSlice(m, p + 0x200, p + 0x250, 36, 40);
    SliceOfSlice(m, p + 0x200, p + 0x250, 44, 80);
    SliceOfSlice(m, p + 0x22C, p + 0x250, 12, 16);
    SliceOfSlice(m, p + 0x450, p + 0x488, 44, 52);
    FromLeOfToLe(Windows.LAPIC, 4);
    FromLeOfToLe(Windows.HPET, 8);
    EntriesAddress();
  }

  lemma EntriesAddress()
    ensures FromLe(Acpi.MADT_ENTRIES[12..16]) == 0
  {
    FromLeOf4(Acpi.MADT_ENTRIES[12..16]);
  }

  /**
   The timer is mapped, above the kernel's base, at the address the tables give. At the address given for
   the local APIC the guest reaches the I/O APIC, and at the one given for the I/O APIC the first page of memory.
   */
  lemma DevicesWhereAdvertised(m: seq<byte>, h: nat, p: nat)
    requires h < 512 && TablesBuilt(m, h) && p + EXTENT <= |m| && InterruptsAt(m, p) && TimerAt(m, p)
    ensures Walk(m, CR3, K_VIRT + HpetAddress(m, p)) == Some(HpetAddress(m, p)) == Some(Windows.HPET)
    ensures LapicAddress(m, p) == Windows.LAPIC && Walk(m, CR3, K_VIRT + LapicAddress(m, p)) == Some(Windows.IOAPIC)
    ensures Walk(m, CR3, K_VIRT + IoapicAddress(m, p)) == Some(0)
  {
    hide Walk, TablesBuilt, InterruptsAt, TimerAt, IoapicAddress, LapicAddress, HpetAddress;
    AddressesRead(m, p);
    Windows.DeviceWindow(m, h, 0);
    Windows.KernelWindow(m, h, 0);
  }

  /** The power-management timer stands at one I/O port in both its fields, and both say four bytes. */
  lemma TimerPortAgrees(m: seq<byte>, p: nat, v: nat)
    requires p + EXTENT <= |m| && v + 0x500 < TWO64 && DescriptionAt(m, p, v)
    ensures var t := m[p + 0x300..p + 0x414];
            && FromLe(t[76..80]) == FromLe(t[212..220]) == 0x408
            && t[208] == 1 && t[209] == 8 * t[91] == 32
  {
    hide Acpi.IsTable, ToLe, FromLe;
    var t := m[p + 0x300..p + 0x414];
    assert Pow256(4) == 0x1_0000_0000 && Pow256(8) == TWO64;
    FromLeOfToLe(0x408, 4);
    FromLeOfToLe(0x408, 8);
    assert t[91] == t[91..92][0] && t[208] == t[208..212][0] && t[209] == t[208..212][1];
  }
}
