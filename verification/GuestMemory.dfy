/** Guest physical memory: the flat 8 GB buffer behind `write_memory` and `read_memory`. */
module GuestMemory {
  import opened Words

  const MEM_SIZE := 0x2_0000_0000

  // Where the kernel and the HAL are loaded, and where the loader block is written
  const KRNL_PBASE := 0x20_0000
  const HAL_PBASE := 0x200_0000
  const LPB_PBASE := 0x400_0000

  /** `m` with `data` copied over it at `off`. */
  function Splice(m: seq<byte>, off: nat, data: seq<byte>): (r: seq<byte>)
    requires off + |data| <= |m|
    ensures |r| == |m|
    ensures forall i :: 0 <= i < |r| ==> r[i] == if off <= i < off + |data| then data[i - off] else m[i]
  {
    m[..off] + data + m[off + |data|..]
  }

  /** The little-endian 64-bit word at address `a`. */
  function Word64(m: seq<byte>, a: nat): (x: u64)
    requires a + 8 <= |m|
  {
    assert Pow256(8) == TWO64;
    FromLe(m[a..a + 8])
  }

  function PutWord(m: seq<byte>, a: nat, x: u64): (r: seq<byte>)
    requires a + 8 <= |m|
    ensures |r| == |m|
  {
    Splice(m, a, ToLe(x, 8))
  }

  /** Nothing outside [lo, hi) differs. */
  ghost predicate SameOutside(m: seq<byte>, m': seq<byte>, lo: nat, hi: nat) {
    |m| == |m'| && forall i :: 0 <= i < |m| && !(lo <= i < hi) ==> m'[i] == m[i]
  }

  lemma SameWord(m: seq<byte>, m': seq<byte>, a: nat)
    requires a + 8 <= |m| && a + 8 <= |m'|
    requires forall i :: a <= i < a + 8 ==> m[i] == m'[i]
    ensures Word64(m, a) == Word64(m', a)
  {
    assert m[a..a + 8] == m'[a..a + 8];
  }

  /** A stored word reads back, and words that do not overlap it are untouched. */
  lemma WordAfterPut(m: seq<byte>, a: nat, x: u64)
    requires a + 8 <= |m|
    ensures Word64(PutWord(m, a, x), a) == x
    ensures forall b: nat :: b + 8 <= |m| && (b + 8 <= a || a + 8 <= b) ==>
                          Word64(PutWord(m, a, x), b) == Word64(m, b)
  {
    var r := PutWord(m, a, x);
    assert r[a..a + 8] == ToLe(x, 8);
    assert Pow256(8) == TWO64;
    FromLeOfToLe(x, 8);
    forall b: nat | b + 8 <= |m| && (b + 8 <= a || a + 8 <= b)
      ensures Word64(r, b) == Word64(m, b)
    {
      SameWord(r, m, b);
    }
  }

  /** The virtual machine, reduced to its memory. */
  class Vm {
    const mem: array<byte>

    ghost predicate Valid()
      reads this
    {
      mem.Length == MEM_SIZE
    }

    ghost function Contents(): seq<byte>
      reads this, mem
    {
      mem[..]
    }

    /** Anonymous pages arrive zeroed. */
    constructor ()
      ensures Valid() && fresh(mem)
      ensures forall i :: 0 <= i < MEM_SIZE ==> Contents()[i] == 0
    {
      mem := new byte[MEM_SIZE](_ => 0);
    }

    method WriteMemory(offset: nat, data: seq<byte>) returns (ok: bool)
      requires Valid()
      modifies mem
      ensures ok <==> offset + |data| <= MEM_SIZE
      ensures Contents() == if ok then Splice(old(Contents()), offset, data) else old(Contents())
    {
      if offset + |data| > MEM_SIZE { return false; }
      forall i | 0 <= i < |data| { mem[offset + i] := data[i]; }
      return true;
    }

    /** Fills the caller's buffer, or leaves it alone when the range leaves memory. */
    method ReadMemory(offset: nat, data: array<byte>) returns (ok: bool)
      requires Valid() && data != mem
      modifies data
      ensures ok <==> offset + data.Length <= MEM_SIZE
      ensures data[..] == if ok then Contents()[offset..offset + data.Length] else old(data[..])
      ensures Contents() == old(Contents())
    {
      if offset + data.Length > MEM_SIZE { return false; }
      forall i | 0 <= i < data.Length { data[i] := mem[offset + i]; }
      return true;
    }
  }
}
