/** Machine words, little-endian byte strings, and the results the modelled code can end in. */
module Words {
  type byte = x: int | 0 <= x < 0x100
  type u16 = x: int | 0 <= x < 0x1_0000
  type u32 = x: int | 0 <= x < 0x1_0000_0000
  type u64 = x: int | 0 <= x < 0x1_0000_0000_0000_0000

  const TWO64 := 0x1_0000_0000_0000_0000

  datatype Option<+T> = None | Some(value: T)

  /** How a Rust call can end: a value, an `Err`, or a panic (slice out of range, checked overflow). */
  datatype Outcome<+T> = Done(value: T) | Fail | Panic {
    predicate IsFailure() { !Done? }

    function PropagateFailure<U>(): Outcome<U>
      requires IsFailure()
    {
      if Fail? then Fail else Panic
    }

    function Extract(): T
      requires !IsFailure()
    {
      value
    }
  }

  function Pow256(n: nat): (r: nat)
    ensures r > 0
  {
    if n == 0 then 1 else 256 * Pow256(n - 1)
  }

  /** The low `n` bytes of `x`, least significant first (`to_le_bytes`). */
  function ToLe(x: nat, n: nat): (s: seq<byte>)
    ensures |s| == n
  {
    if n == 0 then [] else [x % 256] + ToLe(x / 256, n - 1)
  }

  /** The number a little-endian byte string denotes (`from_le_bytes`). */
  function FromLe(s: seq<byte>): (x: nat)
    ensures x < Pow256(|s|)
  {
    if s == [] then 0 else s[0] + 256 * FromLe(s[1..])
  }

  lemma {:induction false} FromLeOfToLe(x: nat, n: nat)
    requires x < Pow256(n)
    ensures FromLe(ToLe(x, n)) == x
  {
    if n > 0 {
      assert ToLe(x, n)[1..] == ToLe(x / 256, n - 1);
      FromLeOfToLe(x / 256, n - 1);
    }
  }

  lemma DigitAndRest(b: byte, y: nat)
    ensures (b + 256 * y) % 256 == b && (b + 256 * y) / 256 == y
  {}

  lemma {:induction false} ToLeOfFromLe(s: seq<byte>)
    ensures ToLe(FromLe(s), |s|) == s
  {
    if s != [] {
      var b, y := s[0], FromLe(s[1..]);
      calc {
        ToLe(FromLe(s), |s|);
        { DigitAndRest(b, y); }
        [b] + ToLe(y, |s| - 1);
        { ToLeOfFromLe(s[1..]); }
        [b] + s[1..];
        s;
      }
    }
  }

  lemma {:induction false} FromLeOfZeros(s: seq<byte>)
    requires forall i :: 0 <= i < |s| ==> s[i] == 0
    ensures FromLe(s) == 0
  {
    if s != [] { FromLeOfZeros(s[1..]); }
  }

  lemma SliceOfSlice<T>(s: seq<T>, a: nat, b: nat, c: nat, d: nat)
    requires a <= b <= |s| && c <= d <= b - a
    ensures s[a..b][c..d] == s[a + c..a + d]
  {
    var t := s[a..b];
    forall i | 0 <= i < d - c
      ensures t[c..d][i] == s[a + c..a + d][i]
    {
      assert t[c..d][i] == t[c + i] == s[a + c + i];
    }
  }

  lemma FromLeOf4(s: seq<byte>)
    requires |s| == 4
    ensures FromLe(s) == s[0] as int + 0x100 * (s[1] as int) + 0x1_0000 * (s[2] as int) + 0x100_0000 * (s[3] as int)
  {
    assert FromLe(s) == s[0] + 256 * FromLe(s[1..]);
    assert FromLe(s[1..]) == s[1] + 256 * FromLe(s[2..]) by { assert s[1..][1..] == s[2..]; }
    assert FromLe(s[2..]) == s[2] + 256 * FromLe(s[3..]) by { assert s[2..][1..] == s[3..]; }
    assert FromLe(s[3..]) == s[3] + 256 * FromLe(s[4..]) by { assert s[3..][1..] == s[4..]; }
    assert s[4..] == [];
  }
}
