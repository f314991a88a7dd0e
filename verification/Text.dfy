/** The string handling of the resolver: decimal numbers, splitting at a dot, file stems, case folding. */
module Text {
  import opened Words

  /** File bytes as text, one character a byte. */
  function AsText(bs: seq<byte>): (s: string)
    ensures |s| == |bs|
  {
    seq(|bs|, i requires 0 <= i < |bs| => bs[i] as char)
  }

  // ----- Decimal numbers

  function Digit(d: nat): char
    requires d < 10
  {
    '0' + d as char
  }

  predicate IsDigit(c: char) { '0' <= c <= '9' }

  /** `n` in decimal, as `format!("{}", n)` prints it. */
  function Decimal(n: nat): (s: string)
    ensures |s| > 0
  {
    if n < 10 then [Digit(n)] else Decimal(n / 10) + [Digit(n % 10)]
  }

  /** The number a run of digits denotes. */
  function Value(s: string): Option<nat> {
    if s == [] then Some(0)
    else
      var c := s[|s| - 1];
      match Value(s[..|s| - 1])
      case None => None
      case Some(v) => if IsDigit(c) then Some(10 * v + (c as int - '0' as int)) else None
  }

  /** `str::parse::<u16>`: an optional plus sign, at least one digit, at most 65535. */
  function ParseU16(s: string): Option<u16> {
    var digits := if s != [] && s[0] == '+' then s[1..] else s;
    if digits == [] then None
    else
      match Value(digits)
      case None => None
      case Some(v) => if v < 0x1_0000 then Some(v) else None
  }

  lemma {:induction false} ValueOfDecimal(n: nat)
    ensures Value(Decimal(n)) == Some(n) && IsDigit(Decimal(n)[0])
  {
    var s := Decimal(n);
    if n < 10 {
      assert s[..|s| - 1] == [];
    } else {
      ValueOfDecimal(n / 10);
      assert s[..|s| - 1] == Decimal(n / 10);
    }
  }

  /** `n` without its last `i` decimal digits. */
  function WithoutLast(n: nat, i: nat): nat {
    if i == 0 then n else WithoutLast(n / 10, i - 1)
  }

  /** The character `i` places from the right is that digit of the number, and the first is no padding. */
  lemma {:induction false} DigitsOfDecimal(n: nat, i: nat)
    requires i < |Decimal(n)|
    ensures Decimal(n)[|Decimal(n)| - 1 - i] == '0' + (WithoutLast(n, i) % 10) as char
    ensures n > 0 ==> Decimal(n)[0] != '0'
    decreases n
  {
    if n >= 10 {
      var s := Decimal(n);
      assert s[..|s| - 1] == Decimal(n / 10);
      DigitsOfDecimal(n / 10, if i > 0 then i - 1 else 0);
    }
  }

  /** An ordinal printed by the parser is read back by the resolver. */
  lemma ParseOfDecimal(n: u16)
    ensures ParseU16(Decimal(n)) == Some(n)
  {
    ValueOfDecimal(n);
  }

  // ----- Splitting

  /** `split_once`: around the first `c`. */
  function SplitOnce(s: string, c: char): (r: Option<(string, string)>)
    ensures r.Some? ==> s == r.value.0 + [c] + r.value.1 && c !in r.value.0
    ensures r.None? ==> c !in s
  {
    if s == [] then None
    else if s[0] == c then Some(([], s[1..]))
    else
      match SplitOnce(s[1..], c)
      case None => None
      case Some((a, b)) => Some(([s[0]] + a, b))
  }

  lemma {:induction false} SplitOnceOfJoin(a: string, c: char, b: string)
    requires c !in a
    ensures SplitOnce(a + [c] + b, c) == Some((a, b))
  {
    var s := a + [c] + b;
    if a == [] {
      assert s[1..] == b;
    } else {
      assert s[1..] == a[1..] + [c] + b;
      assert s[0] == a[0] && [a[0]] + a[1..] == a;
      SplitOnceOfJoin(a[1..], c, b);
    }
  }

  /** The position of the last `c`, or -1. */
  function LastIndex(s: string, c: char): (i: int)
    ensures -1 <= i < |s|
    ensures i >= 0 ==> s[i] == c
    ensures forall j :: i < j < |s| ==> s[j] != c
  {
    if s == [] then -1
    else if s[|s| - 1] == c then |s| - 1
    else LastIndex(s[..|s| - 1], c)
  }

  /** `Path::file_name`: the last path component; none for an empty path, a root, or a path ending in "..". */
  function FileName(s: string): Option<string>
    decreases |s|
  {
    if s == [] then None
    else
      var i := LastIndex(s, '/');
      var last := s[i + 1..];
      if last == [] || last == "." then (if i < 0 then None else FileName(s[..i]))
      else if last == ".." then None
      else Some(last)
  }

  /** `Path::file_stem`: the file name up to its last dot, unless that dot comes first. */
  function FileStem(s: string): Option<string> {
    match FileName(s)
    case None => None
    case Some(name) =>
      var i := LastIndex(name, '.');
      if i <= 0 then Some(name) else Some(name[..i])
  }

  function UpperChar(c: char): char {
    if 'a' <= c <= 'z' then c - 'a' + 'A' else c
  }

  function Upper(s: string): (r: string)
    ensures |r| == |s|
  {
    seq(|s|, i requires 0 <= i < |s| => UpperChar(s[i]))
  }

  lemma PlainFileName(s: string)
    requires s != [] && '/' !in s && s != "." && s != ".."
    ensures FileName(s) == Some(s)
  {
    assert LastIndex(s, '/') == -1;
    assert s[0..] == s;
  }

  lemma {:induction false} LastIndexOfJoin(base: string, c: char, ext: string)
    requires c !in ext
    ensures LastIndex(base + [c] + ext, c) == |base|
    decreases ext
  {
    var s, n := base + [c] + ext, |ext|;
    if n > 0 {
      assert s[|s| - 1] == ext[n - 1] && ext[n - 1] in ext;
      assert s[..|s| - 1] == base + [c] + ext[..n - 1];
      LastIndexOfJoin(base, c, ext[..n - 1]);
    }
  }

  /** An extension does not matter to the stem. */
  lemma StemDropsExtension(base: string, ext: string)
    requires base != [] && '/' !in base && base != "." && '/' !in ext && '.' !in ext
    ensures FileStem(base + ['.'] + ext) == Some(base)
  {
    hide FileName;
    hide LastIndex;
    var s := base + ['.'] + ext;
    assert s == ".." ==> base == "." by {
      assert s[..|base|] == base;
      assert |s| == 2 ==> s[..1] == [s[0]];
    }
    PlainFileName(s);
    LastIndexOfJoin(base, '.', ext);
    assert s[..|base|] == base;
  }
}
