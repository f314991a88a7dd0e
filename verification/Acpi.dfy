/** The ACPI tables: checksummed byte buffers written into guest memory, and the tree they form. */
module Acpi {
  import opened Words
  import opened GuestMemory

  // ----- Checksums

  function Sum(s: seq<byte>): nat {
    if s == [] then 0 else s[0] + Sum(s[1..])
  }

  /** A table whose bytes sum to 0 modulo 256. */
  predicate Checks(s: seq<byte>) { Sum(s) % 256 == 0 }

  lemma {:induction false} SumOfUpdate(s: seq<byte>, i: nat, x: byte)
    requires i < |s|
    ensures Sum(s[i := x]) == Sum(s) - s[i] + x
  {
    if i == 0 {
      assert s[0 := x][1..] == s[1..];
    } else {
      assert s[i := x][1..] == s[1..][i - 1 := x];
      SumOfUpdate(s[1..], i - 1, x);
    }
  }

  lemma {:induction false} SumOfConcat(s: seq<byte>, t: seq<byte>)
    ensures Sum(s + t) == Sum(s) + Sum(t)
  {
    if s == [] {
      assert s + t == t;
    } else {
      assert (s + t)[1..] == s[1..] + t;
      SumOfConcat(s[1..], t);
    }
  }

  lemma SumOfNext(s: seq<byte>, b: byte)
    ensures Sum(s + [b]) == Sum(s) + b
  {
    SumOfConcat(s, [b]);
    assert [b][1..] == [];
  }

  /** The wrapping fold over a buffer's first `n` bytes. */
  method WrappingSum(data: array<byte>, n: nat) returns (acc: byte)
    requires n <= data.Length
    ensures acc == Sum(data[..n]) % 256
  {
    acc := 0;
    for i := 0 to n
      invariant acc == Sum(data[..i]) % 256
    {
      SumOfNext(data[..i], data[i]);
      assert data[..i + 1] == data[..i] + [data[i]];
      acc := (acc + data[i]) % 256;
    }
  }

  /** The byte that, stored at position `at`, makes the sum of `s` vanish. */
  function Complement(s: seq<byte>): byte {
    (256 - Sum(s) % 256) % 256
  }

  lemma ComplementChecks(s: seq<byte>, at: nat)
    requires at < |s| && s[at] == 0
    ensures Checks(s[at := Complement(s)])
  {
    SumOfUpdate(s, at, Complement(s));
  }

  /** Everything but the checksum byte stays, and the whole table sums to 0. */
  method UpdateChecksum(data: array<byte>)
    requires data.Length > 9
    modifies data
    ensures data[..] == old(data[..])[9 := data[9]]
    ensures Checks(data[..])
  {
    data[9] := 0;
    var sum := WrappingSum(data, data.Length);
    assert data[..data.Length] == data[..];
    ghost var zeroed := data[..];
    ComplementChecks(zeroed, 9);
    var total: int := sum;
    data[9] := (256 - total) % 256;
    assert data[..] == zeroed[9 := Complement(zeroed)];
  }

  // ----- Filling buffers

  /** Slices that lie before `lo` or from `hi` on are the same. */
  ghost predicate SlicesKept(s: seq<byte>, s': seq<byte>, lo: nat, hi: nat) {
    && |s'| == |s|
    && forall i, j | 0 <= i <= j <= |s| && (j <= lo || hi <= i) :: s'[i..j] == s[i..j]
  }

  lemma KeptBytesKeepSlices(s: seq<byte>, s': seq<byte>, lo: nat, hi: nat)
    requires SameOutside(s, s', lo, hi)
    ensures SlicesKept(s, s', lo, hi)
  {
    forall i, j | 0 <= i <= j <= |s| && (j <= lo || hi <= i)
      ensures s'[i..j] == s[i..j]
    {}
  }

  method CopyInto(data: array<byte>, off: nat, bytes: seq<byte>)
    requires off + |bytes| <= data.Length
    modifies data
    ensures data[..][off..off + |bytes|] == bytes
    ensures SlicesKept(old(data[..]), data[..], off, off + |bytes|)
  {
    forall i | 0 <= i < |bytes| { data[off + i] := bytes[i]; }
    KeptBytesKeepSlices(old(data[..]), data[..], off, off + |bytes|);
  }

  method SetByte(data: array<byte>, i: nat, x: byte)
    requires i < data.Length
    modifies data
    ensures data[..] == old(data[..])[i := x]
    ensures SlicesKept(old(data[..]), data[..], i, i + 1)
  {
    data[i] := x;
    KeptBytesKeepSlices(old(data[..]), data[..], i, i + 1);
  }

  const INTEL: seq<byte> := [0x49, 0x4E, 0x54, 0x45, 0x4C, 0x20]
  const DELL: seq<byte> := [0x44, 0x45, 0x4C, 0x4C, 0x20, 0x20, 0x20, 0x20]

  /** The header fields around the checksum byte. */
  ghost predicate Headed(s: seq<byte>, sig: seq<byte>, length: nat, rev: byte) {
    && |s| >= 36 && s[0..4] == sig && s[4..8] == ToLe(length, 4) && s[8..9] == [rev]
    && s[10..16] == INTEL && s[16..24] == DELL
  }

  method WriteHeader(data: array<byte>, sig: seq<byte>, length: u32, rev: byte)
    requires data.Length >= 36 && |sig| == 4
    modifies data
    ensures Headed(data[..], sig, length, rev) && SlicesKept(old(data[..]), data[..], 0, 24)
  {
    hide ToLe;
    CopyInto(data, 0, sig);
    CopyInto(data, 4, ToLe(length, 4));
    SetByte(data, 8, rev);
    CopyInto(data, 10, INTEL);
    CopyInto(data, 16, DELL);
  }

  // ----- The six tables

  /** Header, declared length and checksum of a system description table. */
  ghost predicate IsTable(s: seq<byte>, sig: seq<byte>, length: nat, rev: byte) {
    Headed(s, sig, length, rev) && |s| == length && Checks(s)
  }

  const DSDT: seq<byte> := [0x44, 0x53, 0x44, 0x54]
  const APIC: seq<byte> := [0x41, 0x50, 0x49, 0x43]
  const FACP: seq<byte> := [0x46, 0x41, 0x43, 0x50]
  const HPET: seq<byte> := [0x48, 0x50, 0x45, 0x54]
  const XSDT: seq<byte> := [0x58, 0x53, 0x44, 0x54]

  /** The checksum is set last: the header and everything behind it stay as filled in. */
  method Finish(data: array<byte>, ghost sig: seq<byte>, ghost length: nat, ghost rev: byte)
    requires data.Length == length && Headed(data[..], sig, length, rev)
    modifies data
    ensures IsTable(data[..], sig, length, rev) && SlicesKept(old(data[..]), data[..], 9, 10)
  {
    hide ToLe;
    UpdateChecksum(data);
    KeptBytesKeepSlices(old(data[..]), data[..], 9, 10);
  }

  method BuildDsdt() returns (t: array<byte>)
    ensures fresh(t) && IsTable(t[..], DSDT, 36, 1)
  {
    t := new byte[36](_ => 0);
    WriteHeader(t, DSDT, 36, 1);
    Finish(t, DSDT, 36, 1);
  }

  /** Local APIC, I/O APIC, timer override and NMI entries. */
  const MADT_ENTRIES: seq<byte> :=
    [0, 8, 0, 0, 1, 0, 0, 0]
    + [1, 12, 1, 0, 0, 0, 0, 0, 0x00, 0x00, 0xC0, 0xFE]
    + [2, 10, 0, 0, 2, 0, 0, 0, 0x05, 0x00]
    + [4, 6, 0xFF, 0x05, 0x00, 1]

  /** The 44-byte head, extended by the entries to the 80 bytes its header declared. */
  method BuildMadt() returns (t: array<byte>)
    ensures fresh(t) && IsTable(t[..], APIC, 80, 2)
    ensures t[..][36..40] == ToLe(0xFEE0_0000, 4) && t[..][40..44] == ToLe(1, 4) && t[..][44..80] == MADT_ENTRIES
  {
    hide ToLe;
    var head := new byte[44](_ => 0);
    WriteHeader(head, APIC, 80, 2);
    CopyInto(head, 36, ToLe(0xFEE0_0000, 4));
    CopyInto(head, 40, ToLe(1, 4));
    t := Extend(head, MADT_ENTRIES);
    hide MADT_ENTRIES;
    Finish(t, APIC, 80, 2);
  }

  method Extend(a: array<byte>, more: seq<byte>) returns (t: array<byte>)
    ensures fresh(t) && t[..] == a[..] + more
    ensures t[..][a.Length..a.Length + |more|] == more
    ensures forall i, j | 0 <= i <= j <= a.Length :: t[..][i..j] == a[..][i..j]
  {
    var all := a[..] + more;
    t := new byte[|all|](i requires 0 <= i < |all| => all[i]);
    assert t[..] == all;
  }

  /** The fields behind the header of the fixed description table. */
  ghost predicate Described(t: seq<byte>, dsdtV: u64) {
    && |t| == 276 && t[40..44] == ToLe(dsdtV % 0x1_0000_0000, 4) && t[140..148] == ToLe(dsdtV, 8)
    && t[45..46] == [1] && t[76..80] == ToLe(0x408, 4) && t[91..92] == [4]
    && t[109..111] == ToLe(3, 2) && t[112..116] == ToLe(0x100, 4)
    && t[208..212] == [1, 32, 0, 3] && t[212..220] == ToLe(0x408, 8)
  }

  method BuildFadt(dsdtV: u64) returns (t: array<byte>)
    ensures fresh(t) && IsTable(t[..], FACP, 276, 3) && Described(t[..], dsdtV)
  {
    hide ToLe;
    t := new byte[276](_ => 0);
    WriteHeader(t, FACP, 276, 3);
    Describe(t, dsdtV);
    Finish(t, FACP, 276, 3);
  }

  method Describe(t: array<byte>, dsdtV: u64)
    requires t.Length == 276
    modifies t
    ensures Described(t[..], dsdtV) && SlicesKept(old(t[..]), t[..], 36, 276)
  {
    hide ToLe;
    CopyInto(t, 40, ToLe(dsdtV % 0x1_0000_0000, 4));
    SetByte(t, 45, 1);
    CopyInto(t, 76, ToLe(0x408, 4));
    SetByte(t, 91, 4);
    CopyInto(t, 109, ToLe(3, 2));
    CopyInto(t, 112, ToLe(0x100, 4));
    CopyInto(t, 140, ToLe(dsdtV, 8));
    CopyInto(t, 208, [1, 32, 0, 3]);
    CopyInto(t, 212, ToLe(0x408, 8));
  }

  method BuildHpet() returns (t: array<byte>)
    ensures fresh(t) && IsTable(t[..], HPET, 56, 1)
    ensures t[..][36..40] == ToLe(0x8086_A201, 4) && t[..][44..52] == ToLe(0xFED0_0000, 8)
    ensures t[..][40..44] == [0, 64, 0, 0] && t[..][52..53] == [0] && t[..][53..55] == ToLe(0x80, 2)
  {
    hide ToLe;
    t := new byte[56](_ => 0);
    WriteHeader(t, HPET, 56, 1);
    CopyInto(t, 36, ToLe(0x8086_A201, 4));
    CopyInto(t, 40, [0, 64, 0, 0]);
    CopyInto(t, 44, ToLe(0xFED0_0000, 8));
    SetByte(t, 52, 0);
    CopyInto(t, 53, ToLe(0x80, 2));
    Finish(t, HPET, 56, 1);
  }

  method BuildXsdt(fadtV: u64, madtV: u64, hpetV: u64) returns (t: array<byte>)
    ensures fresh(t) && IsTable(t[..], XSDT, 60, 1)
    ensures t[..][36..44] == ToLe(fadtV, 8) && t[..][44..52] == ToLe(madtV, 8) && t[..][52..60] == ToLe(hpetV, 8)
  {
    hide ToLe;
    t := new byte[60](_ => 0);
    WriteHeader(t, XSDT, 60, 1);
    CopyInto(t, 36, ToLe(fadtV, 8));
    CopyInto(t, 44, ToLe(madtV, 8));
    CopyInto(t, 52, ToLe(hpetV, 8));
    Finish(t, XSDT, 60, 1);
  }

  const RSD_PTR: seq<byte> := [0x52, 0x53, 0x44, 0x20, 0x50, 0x54, 0x52, 0x20]

  const VWFL: seq<byte> := [0x56, 0x57, 0x46, 0x4C, 0x20, 0x20]

  /** The root pointer, revision 2: both its sums vanish, though the second covers the first checksum. */
  ghost predicate IsRsdp(s: seq<byte>, xsdtV: u64) {
    && |s| == 36 && s[0..8] == RSD_PTR && s[10..15] == VWFL[..5] && s[15..16] == [2]
    && s[20..24] == ToLe(36, 4) && s[24..32] == ToLe(xsdtV, 8)
    && Checks(s[0..20]) && Checks(s)
  }

  method BuildRsdp(xsdtV: u64) returns (t: array<byte>)
    ensures fresh(t) && IsRsdp(t[..], xsdtV)
  {
    hide ToLe, Checks;
    t := new byte[36](_ => 0);
    assert t[..][8..9] == [0] && t[..][32..33] == [0];
    CopyInto(t, 0, RSD_PTR);
    CopyInto(t, 10, VWFL);
    SetByte(t, 15, 2);
    CopyInto(t, 20, ToLe(36, 4));
    CopyInto(t, 24, ToLe(xsdtV, 8));
    SignPrefix(t, 20, 8);
    SignPrefix(t, 36, 32);
    assert t[..][0..36] == t[..];
  }

  /** Sets the still-zero byte `at` so that the first `n` bytes sum to 0. */
  method SignPrefix(data: array<byte>, n: nat, at: nat)
    requires at < n <= data.Length && data[..][at..at + 1] == [0]
    modifies data
    ensures Checks(data[..][0..n])
    ensures SlicesKept(old(data[..]), data[..], at, at + 1)
  {
    assert data[..][at..at + 1][0] == 0;
    ghost var s := data[..][0..n];
    var sum: int := WrappingSum(data, n);
    assert data[..n] == s;
    ComplementChecks(s, at);
    SetByte(data, at, (256 - sum) % 256);
    assert data[..][0..n] == s[at := Complement(s)];
  }
}
