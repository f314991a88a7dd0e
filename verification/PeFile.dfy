/** A parsed PE image as the loader keeps it, and the fixed-width reads its parsers are made of. */
module PeFile {
  import opened Words

  /** `address` and `size` are virtual; `data` is at most `size` bytes of the file. */
  datatype Section = Section(name: string, address: u64, size: u64, data: seq<byte>)

  datatype Pe = Pe(entryPoint: u64, imageBase: u64, sections: seq<Section>, header: seq<byte>, raw: seq<byte>)

  /** A module after loading. */
  datatype LoadedModule = LoadedModule(name: string, vBase: nat, pBase: nat, entry: nat, size: u32, pe: Pe)

  function ReadU16(d: seq<byte>, off: nat): Outcome<u16> {
    assert Pow256(2) == 0x1_0000;
    if off + 2 <= |d| then Done(FromLe(d[off..off + 2])) else Panic
  }

  function ReadU32(d: seq<byte>, off: nat): Outcome<u32> {
    assert Pow256(4) == 0x1_0000_0000;
    if off + 4 <= |d| then Done(FromLe(d[off..off + 4])) else Panic
  }

  function ReadU64(d: seq<byte>, off: nat): Outcome<u64> {
    assert Pow256(8) == TWO64;
    if off + 8 <= |d| then Done(FromLe(d[off..off + 8])) else Panic
  }

  /** A printed number reads back where it was printed. */
  lemma ReadPrinted(d: seq<byte>, off: nat, x: nat, n: nat)
    requires x < Pow256(n) && off + n <= |d| && d[off..off + n] == ToLe(x, n)
    ensures FromLe(d[off..off + n]) == x
  {
    FromLeOfToLe(x, n);
  }
}
