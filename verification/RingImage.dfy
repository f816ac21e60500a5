/**
 * The test space of one NUMA node as 64-bit words, and the in-place loops of the
 * SOC ring test case that fill, scan and clear it.
 * A test unit is 128 bytes: a cache line of ones followed by a line that is zero
 * except, during a test, for the one bit under test.
 */
module RingImage {
  import opened Numerals

  const DATA_UNIT := 128
  const CACHELINE := 64
  const WORD := 8
  const BLOCK_SIZE := 0x10000
  const BLOCK_UNITS := BLOCK_SIZE / DATA_UNIT
  const READ_LOOPS := 0x80
  const SCAN_BITS := 512
  const ALL_ONES: nat := 0xFFFF_FFFF_FFFF_FFFF
  const UNIT_WORDS := 16
  const LINE_WORDS := 8

  /** The 32 four-byte entries of the initial pattern, read as sixteen eight-byte words. */
  const PATTERN: seq<nat> := seq(UNIT_WORDS, (i: nat) => if i < LINE_WORDS then ALL_ONES else 0)

  /** Word j of a space whose units lo..hi carry the test bit and whose other units are initial. */
  function WordAt(bit: nat, lo: nat, hi: nat, j: nat): nat {
    if j % UNIT_WORDS < LINE_WORDS then ALL_ONES
    else if lo <= j / UNIT_WORDS < hi && j % UNIT_WORDS == LINE_WORDS + bit / 64 then Pow2(bit % 64)
    else 0
  }

  function Image(units: nat, bit: nat, lo: nat, hi: nat): (s: seq<nat>)
    ensures |s| == UNIT_WORDS * units
  {
    seq(UNIT_WORDS * units, j requires 0 <= j < UNIT_WORDS * units => WordAt(bit, lo, hi, j))
  }

  /** The space as it is before any test and has to be again after each. */
  function Blank(units: nat): (s: seq<nat>)
    ensures |s| == UNIT_WORDS * units
  {
    Image(units, 0, 0, 0)
  }

  lemma BlankIsEmptyRange(units: nat, bit: nat, at: nat)
    ensures Image(units, bit, at, at) == Blank(units)
  {
  }

  /** Index of the word under test in the second line of unit u. */
  function TargetIndex(bit: nat, u: nat): nat { UNIT_WORDS * u + LINE_WORDS + bit / 64 }

  /** The words after `value` is stored at the tested place of the first n units. */
  function Overwrite(words: seq<nat>, bit: nat, value: nat, n: nat): (s: seq<nat>)
    ensures |s| == |words|
  {
    seq(|words|, j requires 0 <= j < |words| =>
      if j % UNIT_WORDS == LINE_WORDS + bit / 64 && j / UNIT_WORDS < n then value else words[j])
  }

  lemma OverwriteNext(words: seq<nat>, bit: nat, value: nat, k: nat)
    requires bit < SCAN_BITS && UNIT_WORDS * (k + 1) <= |words|
    ensures Overwrite(words, bit, value, k)[TargetIndex(bit, k) := value] == Overwrite(words, bit, value, k + 1)
  {
    var a, b := Overwrite(words, bit, value, k)[TargetIndex(bit, k) := value], Overwrite(words, bit, value, k + 1);
    forall j | 0 <= j < |a| ensures a[j] == b[j] {
      UnitOf(bit, k, j);
    }
  }

  /** Storing the pattern in the first k units of a blank space, and zero in the first k of a filled one. */
  lemma FillImage(units: nat, bit: nat, k: nat)
    requires bit < SCAN_BITS && k <= units
    ensures Overwrite(Blank(units), bit, Pow2(bit % 64), k) == Image(units, bit, 0, k)
  {
    var a, b := Overwrite(Blank(units), bit, Pow2(bit % 64), k), Image(units, bit, 0, k);
    assert forall j :: 0 <= j < |a| ==> a[j] == b[j];
  }

  lemma ClearImage(units: nat, bit: nat, k: nat)
    requires bit < SCAN_BITS && k <= units
    ensures Overwrite(Image(units, bit, 0, units), bit, 0, k) == Image(units, bit, k, units)
  {
    var a, b := Overwrite(Image(units, bit, 0, units), bit, 0, k), Image(units, bit, k, units);
    assert forall j :: 0 <= j < |a| ==> a[j] == b[j];
  }

  lemma FillOne(units: nat, bit: nat, k: nat)
    requires bit < SCAN_BITS && k < units
    ensures Image(units, bit, 0, k)[TargetIndex(bit, k) := Pow2(bit % 64)] == Image(units, bit, 0, k + 1)
  {
    FillImage(units, bit, k);
    FillImage(units, bit, k + 1);
    OverwriteNext(Blank(units), bit, Pow2(bit % 64), k);
  }

  lemma ClearOne(units: nat, bit: nat, k: nat)
    requires bit < SCAN_BITS && k < units
    ensures Image(units, bit, k, units)[TargetIndex(bit, k) := 0] == Image(units, bit, k + 1, units)
  {
    ClearImage(units, bit, k);
    ClearImage(units, bit, k + 1);
    OverwriteNext(Image(units, bit, 0, units), bit, 0, k);
  }

  /** Clearing what was filled gives back the space that space_init wrote, whatever the bit. */
  lemma FillThenClear(units: nat, bit: nat)
    requires bit < SCAN_BITS
    ensures Overwrite(Overwrite(Blank(units), bit, Pow2(bit % 64), units), bit, 0, units) == Blank(units)
  {
    FillImage(units, bit, units);
    ClearImage(units, bit, units);
    BlankIsEmptyRange(units, bit, units);
  }

  lemma UnitOf(bit: nat, k: nat, j: nat)
    requires bit < SCAN_BITS
    ensures j == TargetIndex(bit, k) <==> (j / UNIT_WORDS == k && j % UNIT_WORDS == LINE_WORDS + bit / 64)
  {
  }

  /** The test of one unit: the word beside the tested one, and the tested one. */
  predicate UnitPasses(words: seq<nat>, bit: nat, u: nat)
    requires bit < SCAN_BITS && UNIT_WORDS * (u + 1) <= |words|
  {
    words[UNIT_WORDS * u + bit / 64] == ALL_ONES && words[TargetIndex(bit, u)] == Pow2(bit % 64)
  }

  lemma PatternPasses(units: nat, bit: nat, u: nat)
    requires bit < SCAN_BITS && u < units
    ensures UnitPasses(Image(units, bit, 0, units), bit, u)
  {
    UnitOf(bit, u, TargetIndex(bit, u));
    assert (UNIT_WORDS * u + bit / 64) % UNIT_WORDS == bit / 64;
  }

  // ----- what the pattern means, bit by bit -----

  predicate BitSet(word: nat, b: nat) { (word / Pow2(b)) % 2 == 1 }

  /** Bit b of the second line of unit u, counting from the line's first byte. */
  predicate SecondLineBit(words: seq<nat>, u: nat, b: nat)
    requires b < SCAN_BITS && UNIT_WORDS * (u + 1) <= |words|
  {
    BitSet(words[UNIT_WORDS * u + LINE_WORDS + b / 64], b % 64)
  }

  lemma {:induction false} OneBitOfPow2(a: nat, b: nat)
    ensures BitSet(Pow2(a), b) <==> a == b
  {
    if b == 0 {
      if a > 0 { assert Pow2(a) == 2 * Pow2(a - 1); }
    } else if a == 0 {
      assert Pow2(b) == 2 * Pow2(b - 1);
      DivUnique(1, Pow2(b), 0, 1);
    } else {
      OneBitOfPow2(a - 1, b - 1);
      HalveBoth(Pow2(a - 1), Pow2(b - 1));
    }
  }

  /** A filled unit holds 511 zeros and a one exactly at the scan bit in its second line. */
  lemma ExactlyScanBit(units: nat, bit: nat, u: nat, b: nat)
    requires bit < SCAN_BITS && b < SCAN_BITS && u < units
    ensures SecondLineBit(Image(units, bit, 0, units), u, b) <==> b == bit
  {
    hide Pow2, BitSet;
    var j := UNIT_WORDS * u + LINE_WORDS + b / 64;
    UnitOf(b, u, j);
    OneBitOfPow2(bit % 64, b % 64);
    ZeroHasNoBit(b % 64);
  }

  lemma ZeroHasNoBit(b: nat)
    ensures !BitSet(0, b)
  {
    DivUnique(0, Pow2(b), 0, 0);
  }

  lemma PatternAt(start: nat, k: nat)
    requires start % UNIT_WORDS == 0 && k < UNIT_WORDS
    ensures WordAt(0, 0, 0, start + k) == PATTERN[k]
  {
  }

  // ----- the loops -----

  method SpaceInit(base: array<nat>, size: nat)
    requires size % DATA_UNIT == 0 && base.Length * WORD == size
    modifies base
    ensures base[..] == Blank(size / DATA_UNIT)
  {
    hide WordAt, Pow2;
    var i := 0;
    ghost var u, units := 0, size / DATA_UNIT;
    while i < size
      invariant i == DATA_UNIT * u && u <= units && size == DATA_UNIT * units
      invariant forall j :: 0 <= j < UNIT_WORDS * u ==> base[j] == WordAt(0, 0, 0, j)
    {
      UnitWords(u);
      forall k | 0 <= k < UNIT_WORDS {
        base[i / WORD + k] := PATTERN[k];
      }
      forall j | UNIT_WORDS * u <= j < UNIT_WORDS * (u + 1) ensures base[j] == WordAt(0, 0, 0, j) {
        PatternAt(UNIT_WORDS * u, j - UNIT_WORDS * u);
      }
      i := i + DATA_UNIT;
      u := u + 1;
    }
  }

  lemma UnitWords(u: nat)
    ensures DATA_UNIT * u / WORD == UNIT_WORDS * u && UNIT_WORDS * u % UNIT_WORDS == 0
  {
    assert DATA_UNIT * u == WORD * (UNIT_WORDS * u);
  }

  method InitDataPattern(base: array<nat>, size: nat, scanBit: nat)
    requires size % DATA_UNIT == 0 && base.Length * WORD == size && scanBit < SCAN_BITS
    modifies base
    ensures base[..] == Overwrite(old(base[..]), scanBit, Pow2(scanBit % 64), size / DATA_UNIT)
  {
    hide Overwrite, Pow2;
    var datPattern := Pow2(scanBit % 64);
    var wordOffset := scanBit / 64 * WORD;
    var i := 0;
    ghost var k, units := 0, size / DATA_UNIT;
    NothingOverwritten(base[..], scanBit, datPattern);
    while i < size
      invariant i == DATA_UNIT * k && k <= units && size == DATA_UNIT * units
      invariant base[..] == Overwrite(old(base[..]), scanBit, datPattern, k)
    {
      OverwriteNext(old(base[..]), scanBit, datPattern, k);
      TargetByte(k, scanBit);
      base[(i + wordOffset + CACHELINE) / WORD] := datPattern;
      i := i + DATA_UNIT;
      k := k + 1;
    }
  }

  lemma NothingOverwritten(words: seq<nat>, bit: nat, value: nat)
    ensures Overwrite(words, bit, value, 0) == words
  {
  }

  lemma TargetByte(k: nat, bit: nat)
    requires bit < SCAN_BITS
    ensures (DATA_UNIT * k + bit / 64 * WORD + CACHELINE) / WORD == TargetIndex(bit, k) < UNIT_WORDS * (k + 1)
  {
    var w := bit / 64;
    assert DATA_UNIT * k + w * WORD + CACHELINE == WORD * (UNIT_WORDS * k + w + LINE_WORDS);
  }

  method DataClear(base: array<nat>, size: nat, scanBit: nat)
    requires size % DATA_UNIT == 0 && base.Length * WORD == size && scanBit < SCAN_BITS
    modifies base
    ensures base[..] == Overwrite(old(base[..]), scanBit, 0, size / DATA_UNIT)
  {
    hide Overwrite;
    var wordOffset := scanBit / 64 * WORD;
    var i := 0;
    ghost var k, units := 0, size / DATA_UNIT;
    NothingOverwritten(base[..], scanBit, 0);
    while i < size
      invariant i == DATA_UNIT * k && k <= units && size == DATA_UNIT * units
      invariant base[..] == Overwrite(old(base[..]), scanBit, 0, k)
    {
      OverwriteNext(old(base[..]), scanBit, 0, k);
      TargetByte(k, scanBit);
      base[(i + wordOffset + CACHELINE) / WORD] := 0;
      i := i + DATA_UNIT;
      k := k + 1;
    }
  }

  /** Scans the block that starts `baseAddr` bytes into the space. */
  method ScanTestBlock(space: array<nat>, baseAddr: nat, scanBit: nat, blockSize: nat) returns (ok: bool)
    requires baseAddr % DATA_UNIT == 0 && blockSize % DATA_UNIT == 0 && scanBit < SCAN_BITS
    requires baseAddr + blockSize <= space.Length * WORD
    ensures ok <==> forall u: nat :: baseAddr / DATA_UNIT <= u < (baseAddr + blockSize) / DATA_UNIT
                                ==> UnitPasses(space[..], scanBit, u)
  {
    hide Pow2, UnitPasses;
    var tgtDatPattern := Pow2(scanBit % 64);
    var wordOffset := scanBit / 64 * WORD;
    var i := 0;
    ghost var first, units, k := baseAddr / DATA_UNIT, blockSize / DATA_UNIT, 0;
    assert (baseAddr + blockSize) / DATA_UNIT == first + units;
    while i < blockSize
      invariant i == DATA_UNIT * k && k <= units
      invariant baseAddr == DATA_UNIT * first && blockSize == DATA_UNIT * units
      invariant forall u: nat :: first <= u < first + k ==> UnitPasses(space[..], scanBit, u)
    {
      TargetByte(first + k, scanBit);
      BesideByte(first + k, scanBit);
      var rd0 := space[(baseAddr + i + wordOffset) / WORD];
      var rd1 := space[(baseAddr + i + CACHELINE + wordOffset) / WORD];
      UnitVerdict(space[..], scanBit, first + k, rd0, rd1);
      if rd0 != ALL_ONES || rd1 != tgtDatPattern {
        return false;
      }
      i := i + DATA_UNIT;
      k := k + 1;
    }
    ok := true;
  }

  lemma BesideByte(k: nat, bit: nat)
    requires bit < SCAN_BITS
    ensures (DATA_UNIT * k + bit / 64 * WORD) / WORD == UNIT_WORDS * k + bit / 64 < UNIT_WORDS * (k + 1)
  {
    var w := bit / 64;
    assert DATA_UNIT * k + w * WORD == WORD * (UNIT_WORDS * k + w);
  }

  lemma UnitVerdict(words: seq<nat>, bit: nat, u: nat, rd0: nat, rd1: nat)
    requires bit < SCAN_BITS && UNIT_WORDS * (u + 1) <= |words|
    requires rd0 == words[UNIT_WORDS * u + bit / 64] && rd1 == words[TargetIndex(bit, u)]
    ensures UnitPasses(words, bit, u) <==> rd0 == ALL_ONES && rd1 == Pow2(bit % 64)
  {
    hide Pow2;
  }

  /** The read loop of one thread: a failed NUMA lookup (negative node) scans nothing. */
  method ScanBit(space: array<nat>, memSize: nat, numaNode: int, scanBit: nat) returns (ok: bool)
    requires memSize % BLOCK_SIZE == 0 && space.Length * WORD == memSize && scanBit < SCAN_BITS
    ensures ok <==> numaNode < 0 || forall u: nat :: u < memSize / DATA_UNIT ==> UnitPasses(space[..], scanBit, u)
  {
    hide Pow2, UnitPasses;
    if numaNode < 0 {
      return true;
    }
    ghost var blocks := memSize / BLOCK_SIZE;
    UnitsOfBlocks(blocks);
    for i := 0 to READ_LOOPS
      invariant i > 0 ==> forall u: nat :: u < memSize / DATA_UNIT ==> UnitPasses(space[..], scanBit, u)
    {
      var j := 0;
      ghost var k := 0;
      while j < memSize
        invariant j == BLOCK_SIZE * k && k <= blocks && memSize == BLOCK_SIZE * blocks
        invariant forall u: nat :: u < BLOCK_UNITS * k ==> UnitPasses(space[..], scanBit, u)
      {
        UnitsOfBlocks(k);
        UnitsOfBlocks(k + 1);
        var good := ScanTestBlock(space, j, scanBit, BLOCK_SIZE);
        if !good {
          return false;
        }
        j := j + BLOCK_SIZE;
        k := k + 1;
      }
    }
    ok := true;
  }

  lemma UnitsOfBlocks(k: nat)
    ensures BLOCK_SIZE * k / DATA_UNIT == BLOCK_UNITS * k && BLOCK_SIZE * k % DATA_UNIT == 0
  {
    assert BLOCK_SIZE * k == DATA_UNIT * (BLOCK_UNITS * k);
  }

  /** The word of ones is the one 64-bit word in which every bit is set. */
  lemma AllOnesIsAll()
    ensures ALL_ONES == Pow2(64) - 1
  {
    assert Pow2(8) == 256;
    hide Pow2;
    Pow2Add(8, 8);
    assert Pow2(16) == 65536;
    Pow2Add(16, 16);
    assert Pow2(32) == 0x1_0000_0000;
    Pow2Add(32, 32);
  }
}
