/** Undoing a relocation: exactly which target lists, and which images, come back unchanged. */
module Overlap {
  import opened Words
  import opened GuestMemory
  import opened PeFile
  import opened Relocation

  ghost predicate Increasing(ts: seq<nat>) {
    forall i, j :: 0 <= i < j < |ts| ==> ts[i] < ts[j]
  }

  function Negated(d: u64): u64 { (TWO64 - d) % TWO64 }

  lemma AddAllOne(m: seq<byte>, a: nat, d: u64)
    ensures AddAll(m, [a], d) == AddWord(m, a, d)
  {
    hide AddWord;
    assert [a][1..] == [];
  }

  lemma UndoOne(m: seq<byte>, a: nat, d: u64)
    ensures AddWord(AddWord(m, a, d), a, Negated(d)) == m
  {
    hide AddWord;
    ThereAndBack(m, [a], d);
    AddAllOne(m, a, d);
    AddAllOne(AddWord(m, a, d), a, Negated(d));
  }

  /** The targets from the last to the first. */
  function Backwards(targets: seq<nat>): seq<nat> {
    if targets == [] then [] else Backwards(targets[1..]) + [targets[0]]
  }

  /** Undone in the opposite order, any relocation restores memory, overlapping or not. */
  lemma {:induction false} UndoneBackwards(m: seq<byte>, targets: seq<nat>, d: u64)
    ensures AddAll(AddAll(m, targets, d), Backwards(targets), Negated(d)) == m
    decreases targets
  {
    hide AddWord, Negated;
    if targets != [] {
      var a, rest := targets[0], targets[1..];
      var m1 := AddWord(m, a, d);
      UndoneBackwards(m1, rest, d);
      AddAllAppend(AddAll(m1, rest, d), Backwards(rest), [a], Negated(d));
      AddAllOne(m1, a, Negated(d));
      UndoOne(m, a, d);
    }
  }

  // ----- Adding one to a word, byte by byte

  /** The carry runs through the leading 0xFF bytes; a carry out of the last byte is lost. */
  function Increment(s: seq<byte>): (r: seq<byte>)
    ensures |r| == |s|
  {
    if s == [] then []
    else if s[0] == 0xFF then [0] + Increment(s[1..])
    else [s[0] + 1] + s[1..]
  }

  lemma {:induction false} IncrementIsPlusOne(s: seq<byte>)
    ensures ToLe((FromLe(s) + 1) % Pow256(|s|), |s|) == Increment(s)
    decreases s
  {
    if s != [] {
      hide ToLe, Pow256;
      var b, y, p := s[0], FromLe(s[1..]), Pow256(|s| - 1);
      assert FromLe(s) == b + 256 * y;
      hide FromLe;
      Pow256Step(|s|);
      PlusOne(b, y, p);
      ToLeStep(if b == 0xFF then 0 else b + 1, if b == 0xFF then (y + 1) % p else y, |s|);
      IncrementIsPlusOne(s[1..]);
      ToLeOfFromLe(s[1..]);
    }
  }

  /** One more than a number whose lowest digit is `b`, modulo 256 times `p`. */
  lemma PlusOne(b: byte, y: nat, p: nat)
    requires y < p
    ensures (b + 256 * y + 1) % (256 * p) == if b == 0xFF then 256 * ((y + 1) % p) else b + 1 + 256 * y
  {
    if b == 0xFF {
      DoubledModulus(y + 1, p);
    } else {
      Below(b + 1 + 256 * y, 256 * p);
    }
  }

  lemma Pow256Step(n: nat)
    requires n > 0
    ensures Pow256(n) == 256 * Pow256(n - 1)
  {}

  lemma ToLeStep(b: byte, y: nat, n: nat)
    requires n > 0
    ensures ToLe(b + 256 * y, n) == [b] + ToLe(y, n - 1)
  {
    DigitAndRest(b, y);
  }

  lemma DoubledModulus(x: nat, p: nat)
    requires 0 < x <= p
    ensures 256 * x % (256 * p) == 256 * (x % p)
  {
    if x == p {
      Wraps(p);
      Wraps(256 * p);
    } else {
      Below(x, p);
      Below(256 * x, 256 * p);
    }
  }

  lemma Wraps(p: nat)
    requires p > 0
    ensures p % p == 0
  {}

  lemma Below(x: nat, p: nat)
    requires x < p
    ensures x % p == x
  {}

  lemma {:induction false} IncrementAt(s: seq<byte>, j: nat, i: nat)
    requires j <= |s| && i < |s| && (forall k :: 0 <= k < j ==> s[k] == 0xFF) && (j < |s| ==> s[j] < 0xFF)
    ensures Increment(s)[i] == if i < j then 0 else if i == j then s[i] + 1 else s[i]
    decreases s
  {
    if j > 0 && i > 0 { IncrementAt(s[1..], j - 1, i - 1); }
  }

  /** Adding one to the word at `a` when its first `j` bytes, and no more, are 0xFF. */
  lemma CarryThrough(m: seq<byte>, a: nat, j: nat, x: nat)
    requires a + 8 <= |m| && x < |m| && j <= 8
    requires (forall y :: a <= y < a + j ==> m[y] == 0xFF) && (j < 8 ==> m[a + j] < 0xFF)
    ensures AddWord(m, a, 1)[x] ==
            if a <= x < a + j then 0 else if x == a + j < a + 8 then (m[x] + 1) % 256 else m[x]
  {
    hide FromLe, ToLe, Increment;
    var s := m[a..a + 8];
    assert Pow256(8) == TWO64;
    IncrementIsPlusOne(s);
    if a <= x < a + 8 { IncrementAt(s, j, x - a); }
  }

  // ----- Memories that show an overlap

  /** Memory of `n` bytes: 0xFF from `lo` to `hi`, 1 at the marked addresses, 0 elsewhere. */
  function Painted(n: nat, lo: nat, hi: nat, marks: seq<nat>): (m: seq<byte>)
    ensures |m| == n
  {
    seq(n, x requires 0 <= x < n => if lo <= x < hi then 0xFF else if x in marks then 1 else 0)
  }

  lemma SamePaint(n: nat, lo: nat, hi: nat, marks: seq<nat>, marks': seq<nat>)
    requires forall x :: x in marks <==> x in marks'
    ensures Painted(n, lo, hi, marks) == Painted(n, lo, hi, marks')
  {}

  lemma Mark(n: nat, lo: nat, hi: nat, marks: seq<nat>, c: nat)
    requires c + 8 <= n && !(lo <= c < hi) && c !in marks
    ensures AddWord(Painted(n, lo, hi, marks), c, 1) == Painted(n, lo, hi, [c] + marks)
  {
    hide AddWord;
    var m, m' := Painted(n, lo, hi, marks), Painted(n, lo, hi, [c] + marks);
    forall x | 0 <= x < n
      ensures AddWord(m, c, 1)[x] == m'[x]
    {
      CarryThrough(m, c, 0, x);
    }
  }

  lemma FirstIsLeast(cs: seq<nat>)
    requires Increasing(cs) && cs != []
    ensures Increasing(cs[1..]) && cs[0] in cs && forall c :: c in cs[1..] ==> c in cs && cs[0] < c
  {
    forall i, j | 0 <= i < j < |cs| - 1
      ensures cs[1..][i] < cs[1..][j]
    {
      assert cs[i + 1] < cs[j + 1];
    }
  }

  /** Targets outside the window that are not marked yet get marked, one by one. */
  lemma {:induction false} MarkAll(n: nat, lo: nat, hi: nat, marks: seq<nat>, cs: seq<nat>)
    requires Increasing(cs) && forall c :: c in cs ==> c + 8 <= n && !(lo <= c < hi) && c !in marks
    ensures AddAll(Painted(n, lo, hi, marks), cs, 1) == Painted(n, lo, hi, cs + marks)
    decreases cs
  {
    hide AddWord, Painted;
    if cs == [] {
      assert cs + marks == marks;
    } else {
      var c, rest := cs[0], cs[1..];
      FirstIsLeast(cs);
      Mark(n, lo, hi, marks, c);
      MarkAll(n, lo, hi, [c] + marks, rest);
      SamePaint(n, lo, hi, rest + ([c] + marks), cs + marks);
    }
  }

  /** ... and the marks of the targets are taken away again by adding -1. */
  lemma {:induction false} UnmarkAll(n: nat, lo: nat, hi: nat, marks: seq<nat>, cs: seq<nat>)
    requires Increasing(cs) && forall c :: c in cs ==> c + 8 <= n && !(lo <= c < hi) && c !in marks
    ensures AddAll(Painted(n, lo, hi, cs + marks), cs, Negated(1)) == Painted(n, lo, hi, marks)
    decreases cs
  {
    hide AddWord, Painted, Negated;
    if cs == [] {
      assert cs + marks == marks;
    } else {
      var c, rest := cs[0], cs[1..];
      FirstIsLeast(cs);
      Mark(n, lo, hi, rest + marks, c);
      assert cs + marks == [c] + (rest + marks);
      UndoOne(Painted(n, lo, hi, rest + marks), c, 1);
      UnmarkAll(n, lo, hi, marks, rest);
    }
  }

  /** A full window rolls over to zero. */
  lemma Roll(n: nat, lo: nat, a: nat, marks: seq<nat>)
    requires lo <= a && a + 8 <= n && forall c :: c in marks ==> !(a <= c < a + 8)
    ensures AddWord(Painted(n, lo, a + 8, marks), a, 1) == Painted(n, lo, a, marks)
  {
    hide AddWord;
    var m, m' := Painted(n, lo, a + 8, marks), Painted(n, lo, a, marks);
    forall x | 0 <= x < n
      ensures AddWord(m, a, 1)[x] == m'[x]
    {
      CarryThrough(m, a, 8, x);
    }
  }

  /** A window that is 0xFF up to `b` carries into `b`. */
  lemma Carry(n: nat, a: nat, b: nat, marks: seq<nat>)
    requires a < b < a + 8 <= n && forall c :: c in marks ==> !(a <= c <= b)
    ensures AddWord(Painted(n, a, b, marks), a, 1) == Painted(n, a, a, [b] + marks)
  {
    hide AddWord;
    var m, m' := Painted(n, a, b, marks), Painted(n, a, a, [b] + marks);
    forall x | 0 <= x < n
      ensures AddWord(m, a, 1)[x] == m'[x]
    {
      CarryThrough(m, a, b - a, x);
    }
  }

  // ----- The exact condition

  lemma Chain(m: seq<byte>, before: seq<nat>, a: nat, b: nat, after: seq<nat>, d: u64)
    ensures AddAll(m, before + [a, b] + after, d) ==
            AddAll(AddWord(AddWord(AddAll(m, before, d), a, d), b, d), after, d)
  {
    hide AddWord, AddAll;
    var m1 := AddAll(m, before, d);
    assert [a, b] == [a] + [b];
    AddAllAppend(m, before + [a, b], after, d);
    AddAllAppend(m, before, [a, b], d);
    AddAllAppend(m1, [a], [b], d);
    AddAllOne(m1, a, d);
    AddAllOne(AddWord(m1, a, d), b, d);
  }

  /** An increasing list of targets inside memory, cut where `a` and `b` overlap and no later two do. */
  ghost predicate Cut(n: nat, before: seq<nat>, a: nat, b: nat, after: seq<nat>) {
    && Increasing(before) && Increasing(after) && a < b < a + 8 && b + 8 <= n
    && (forall c :: c in before ==> c < a)
    && (forall c :: c in after ==> b + 8 <= c && c + 8 <= n)
  }

  lemma Forth(n: nat, before: seq<nat>, a: nat, b: nat, after: seq<nat>)
    requires Cut(n, before, a, b, after)
    ensures AddAll(Painted(n, a, a + 8, []), before + [a, b] + after, 1) == Painted(n, a, a, before + ([b] + after))
  {
    hide AddWord, AddAll, Painted;
    Chain(Painted(n, a, a + 8, []), before, a, b, after, 1);
    MarkAll(n, a, a + 8, [], before);
    assert before + [] == before;
    Roll(n, a, a, before);
    Mark(n, a, a, before, b);
    MarkAll(n, a, a, [b] + before, after);
    SamePaint(n, a, a, after + ([b] + before), before + ([b] + after));
  }

  lemma Back(n: nat, before: seq<nat>, a: nat, b: nat, after: seq<nat>)
    requires Cut(n, before, a, b, after)
    ensures AddAll(Painted(n, a, a, before + ([b] + after)), before + [a, b] + after, Negated(1))
         == Painted(n, a, b + 8, [])
  {
    hide AddWord, AddAll, Painted, Negated;
    Chain(Painted(n, a, a, before + ([b] + after)), before, a, b, after, Negated(1));
    UnmarkAll(n, a, a, [b] + after, before);
    Carry(n, a, b, after);
    UndoOne(Painted(n, a, b, after), a, 1);
    Roll(n, a, b, after);
    UndoOne(Painted(n, a, b + 8, after), b, 1);
    UnmarkAll(n, a, b + 8, [], after);
    assert after + [] == after;
  }

  lemma CleanCons(ts: seq<nat>)
    requires ts != [] && CleanWindows(ts[1..]) && forall b :: b in ts[1..] ==> ts[0] + 8 <= b
    ensures CleanWindows(ts)
  {
    assert ts == [ts[0]] + ts[1..];
  }

  lemma FirstOverlaps(ts: seq<nat>)
    requires Increasing(ts) && ts != [] && CleanWindows(ts[1..]) && !CleanWindows(ts)
    ensures |ts| >= 2 && ts[1] < ts[0] + 8
    ensures forall j :: 2 <= j < |ts| ==> ts[1] + 8 <= ts[j]
  {
    var rest := ts[1..];
    if forall b :: b in rest ==> ts[0] + 8 <= b { CleanCons(ts); }
    var b :| b in rest && b < ts[0] + 8;
    var k :| 0 <= k < |rest| && rest[k] == b;
    assert ts[1] <= ts[k + 1];
    forall j | 2 <= j < |ts|
      ensures ts[1] + 8 <= ts[j]
    {
      assert rest[0] in rest && rest[j - 1] in rest && ts[1] < ts[j];
    }
  }

  /** Where the last two overlapping targets are. */
  lemma {:induction false} LastOverlap(ts: seq<nat>) returns (i: nat)
    requires Increasing(ts) && !CleanWindows(ts)
    ensures i + 1 < |ts| && ts[i + 1] < ts[i] + 8
    ensures forall j :: i + 2 <= j < |ts| ==> ts[i + 1] + 8 <= ts[j]
    decreases ts
  {
    assert ts != [];
    hide CleanWindows, Increasing;
    FirstIsLeast(ts);
    if CleanWindows(ts[1..]) {
      FirstOverlaps(ts);
      i := 0;
    } else {
      var k := LastOverlap(ts[1..]);
      forall j | k + 3 <= j < |ts|
        ensures ts[k + 2] + 8 <= ts[j]
      {
        assert ts[j] == ts[1..][j - 1];
      }
      i := k + 1;
    }
  }

  /** There and back restores every memory of `n` bytes, whatever the delta. */
  ghost predicate ComesBack(n: nat, ts: seq<nat>) {
    forall m: seq<byte>, d: u64 | |m| == n :: AddAll(AddAll(m, ts, d), ts, Negated(d)) == m
  }

  /** Increasing targets inside a memory of `n` bytes, as a relocation table lists them. */
  ghost predicate Listed(n: nat, ts: seq<nat>) {
    Increasing(ts) && forall t :: t in ts ==> t + 8 <= n
  }

  /** The window condition is exact: increasing targets come back if and only if no two overlap. */
  lemma ComesBackExactlyWhenClean(n: nat, ts: seq<nat>)
    requires Listed(n, ts)
    ensures ComesBack(n, ts) <==> CleanWindows(ts)
  {
    hide AddAll, CleanWindows;
    if CleanWindows(ts) {
      forall m: seq<byte>, d: u64 | |m| == n
        ensures AddAll(AddAll(m, ts, d), ts, Negated(d)) == m
      {
        ThereAndBack(m, ts, d);
      }
    } else {
      OverlapDoesNotComeBack(n, ts);
    }
  }

  lemma OverlapDoesNotComeBack(n: nat, ts: seq<nat>)
    requires Listed(n, ts) && !CleanWindows(ts)
    ensures exists m: seq<byte> :: |m| == n && AddAll(AddAll(m, ts, 1), ts, Negated(1)) != m
  {
    hide AddAll, Negated, CleanWindows;
    var i := LastOverlap(ts);
    var before, a, b, after := ts[..i], ts[i], ts[i + 1], ts[i + 2..];
    CutAt(n, ts, i);
    assert ts == before + [a, b] + after;
    var m := Painted(n, a, a + 8, []);
    Forth(n, before, a, b, after);
    Back(n, before, a, b, after);
    assert m[a + 8] == 0 && Painted(n, a, b + 8, [])[a + 8] == 0xFF;
    assert |m| == n && AddAll(AddAll(m, ts, 1), ts, Negated(1)) != m;
  }

  lemma CutAt(n: nat, ts: seq<nat>, i: nat)
    requires Listed(n, ts) && i + 1 < |ts| && ts[i + 1] < ts[i] + 8
    requires forall j :: i + 2 <= j < |ts| ==> ts[i + 1] + 8 <= ts[j]
    ensures Cut(n, ts[..i], ts[i], ts[i + 1], ts[i + 2..])
  {
    var before, after := ts[..i], ts[i + 2..];
    assert ts[i + 1] in ts && forall c :: c in after ==> c in ts;
    forall c | c in after
      ensures ts[i + 1] + 8 <= c
    {
      var j :| 0 <= j < |after| && after[j] == c;
      assert ts[i + 2 + j] == c;
    }
    forall j, k | 0 <= j < k < |after|
      ensures after[j] < after[k]
    {
      assert ts[i + 2 + j] < ts[i + 2 + k];
    }
  }

  // ----- The same for images

  /** Moved anywhere and home again, the image restores every memory. */
  ghost predicate ComesHome(pe: Pe, pBase: nat) {
    forall m: seq<byte>, v: u64 | |m| == MEM_SIZE :: MovedHome(m, pe, pBase, v) == m
  }

  function MovedHome(m: seq<byte>, pe: Pe, pBase: nat, v: u64): seq<byte> {
    Relocate(Relocate(m, pe, pBase, v), pe.(imageBase := v), pBase, pe.imageBase)
  }

  lemma MovedHomeIsThereAndBack(m: seq<byte>, pe: Pe, pBase: nat, v: u64)
    ensures var ts, d := RelocTargets(pe, pBase), Delta(pe, v);
            MovedHome(m, pe, pBase, v) == AddAll(AddAll(m, ts, d), ts, Negated(d))
  {
    hide AddAll, Relocate, Targets;
    var moved := pe.(imageBase := v);
    assert Delta(moved, pe.imageBase) == Negated(Delta(pe, v));
    assert RelocTargets(moved, pBase) == RelocTargets(pe, pBase);
    RelocateAddsAll(m, pe, pBase, v);
    RelocateAddsAll(Relocate(m, pe, pBase, v), moved, pBase, pe.imageBase);
  }

  lemma RelocateAddsAll(m: seq<byte>, pe: Pe, pBase: nat, v: u64)
    ensures Relocate(m, pe, pBase, v) == AddAll(m, RelocTargets(pe, pBase), Delta(pe, v))
  {
    hide Targets;
    if RelocData(pe).Some? { RelocateIsAddAll(m, pe, pBase, v); }
  }

  /** An image whose targets increase and lie in memory comes home if and only if no two of them overlap. */
  lemma ComesHomeExactlyWhenClean(pe: Pe, pBase: nat)
    requires Listed(MEM_SIZE, RelocTargets(pe, pBase))
    ensures ComesHome(pe, pBase) <==> CleanWindows(RelocTargets(pe, pBase))
  {
    hide CleanWindows, Listed, RelocTargets, MovedHome;
    if CleanWindows(RelocTargets(pe, pBase)) {
      forall m: seq<byte>, v: u64 | |m| == MEM_SIZE
        ensures MovedHome(m, pe, pBase, v) == m
      {
        MovedHomeIsThereAndBack(m, pe, pBase, v);
        ThereAndBack(m, RelocTargets(pe, pBase), Delta(pe, v));
      }
    } else {
      OverlapDoesNotComeHome(pe, pBase);
    }
  }

  lemma OverlapDoesNotComeHome(pe: Pe, pBase: nat)
    requires Listed(MEM_SIZE, RelocTargets(pe, pBase)) && !CleanWindows(RelocTargets(pe, pBase))
    ensures exists m: seq<byte>, v: u64 :: |m| == MEM_SIZE && MovedHome(m, pe, pBase, v) != m
  {
    hide AddAll, Negated, CleanWindows, Listed, RelocTargets, MovedHome;
    var ts := RelocTargets(pe, pBase);
    OverlapDoesNotComeBack(MEM_SIZE, ts);
    var m: seq<byte> :| |m| == MEM_SIZE && AddAll(AddAll(m, ts, 1), ts, Negated(1)) != m;
    var v: u64 := (pe.imageBase + 1) % TWO64;
    OneUp(pe);
    MovedHomeIsThereAndBack(m, pe, pBase, v);
    assert MovedHome(m, pe, pBase, v) != m;
  }

  lemma OneUp(pe: Pe)
    ensures Delta(pe, (pe.imageBase + 1) % TWO64) == 1
  {}

  /** A printed section with two 64-bit entries four bytes apart does not come home, wherever it is loaded. */
  lemma PrintedOverlap(pe: Pe, pBase: nat)
    requires RelocData(pe) == Some(PrintBlocks([Block(0, [0xA000, 0xA004])])) && pBase + 12 <= MEM_SIZE
    ensures RelocTargets(pe, pBase) == [pBase, pBase + 4] && !ComesHome(pe, pBase)
  {
    hide Targets, ComesHome;
    var b := Block(0, [0xA000, 0xA004]);
    var bs, data := [b], RelocData(pe).value;
    assert data[0..] == PrintBlocks(bs) + [] by { assert data + [] == data; }
    ParsePrinted(data, 0, bs, [], pBase);
    assert AllTargets(bs, pBase) == [pBase, pBase + 4] by {
      assert bs[1..] == [] && b.entries[1..] == [0xA004] && [0xA004 as u16][1..] == [];
      assert EntryTargets(0, [0xA004], pBase) == [pBase + 4] + EntryTargets(0, [], pBase);
      assert EntryTargets(0, b.entries, pBase) == [pBase] + EntryTargets(0, [0xA004], pBase);
    }
    var ts := RelocTargets(pe, pBase);
    assert ts[0] in ts && ts[1] in ts;
    ComesHomeExactlyWhenClean(pe, pBase);
  }
}
