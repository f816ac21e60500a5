/** Digits, words and padding shared by the printers and parsers of the other modules. */
module Numerals {

  datatype Option<+T> = None | Some(value: T)

  /** The limits of int and long. */
  const INT_MAX: int := 0x7FFF_FFFF
  const LONG_MAX: int := 0x7FFF_FFFF_FFFF_FFFF

  newtype uint16 = x: int | 0 <= x < 0x1_0000

  newtype int32 = x: int | -INT_MAX - 1 <= x <= INT_MAX

  /** 1ULL << n for the shift counts the programs use. */
  function Pow2(n: nat): (p: nat)
    ensures p >= 1
  {
    if n == 0 then 1 else 2 * Pow2(n - 1)
  }

  lemma {:induction false} Pow2Add(m: nat, n: nat)
    ensures Pow2(m + n) == Pow2(m) * Pow2(n)
  {
    if m == 0 {
    } else {
      Pow2Add(m - 1, n);
      DoubleProduct(Pow2(m - 1), Pow2(n), Pow2(m));
    }
  }

  lemma ProductOfNaturals(a: int, b: int)
    requires a >= 0 && b >= 0
    ensures a * b >= 0
  {
  }

  lemma DoubleProduct(p: nat, x: nat, q: nat)
    requires q == 2 * p
    ensures q * x == 2 * (p * x)
  {
  }

  lemma {:induction false} Pow2Monotone(m: nat, n: nat)
    requires m < n
    ensures Pow2(m) < Pow2(n)
  {
    if m + 1 == n {
    } else {
      Pow2Monotone(m, n - 1);
    }
  }

  lemma HalveBoth(x: nat, y: nat)
    requires y > 0
    ensures (2 * x) / (2 * y) == x / y
  {
    var q, r := x / y, x % y;
    assert x == q * y + r;
    assert 2 * x == q * (2 * y) + 2 * r;
    DivUnique(2 * x, 2 * y, q, 2 * r);
  }

  lemma DivUnique(n: nat, d: nat, q: nat, r: nat)
    requires d > 0 && n == q * d + r && r < d
    ensures n / d == q && n % d == r
  {
    var q', r' := n / d, n % d;
    assert n == q' * d + r' && 0 <= r' < d;
    if q > q' {
      assert (q - q') * d == q * d - q' * d;
      MulAtLeast(q - q', d);
    } else if q < q' {
      assert (q' - q) * d == q' * d - q * d;
      MulAtLeast(q' - q, d);
    }
  }

  lemma MulAtLeast(k: nat, d: nat)
    requires k >= 1
    ensures k * d >= d
  {
    assert k * d == (k - 1) * d + d;
  }

  function Reversed<T>(s: seq<T>): (r: seq<T>)
    ensures |r| == |s| && forall i :: 0 <= i < |s| ==> r[i] == s[|s| - 1 - i]
  {
    seq(|s|, i requires 0 <= i < |s| => s[|s| - 1 - i])
  }

  lemma ReversedPush<T>(s: seq<T>, x: T)
    ensures Reversed(s + [x]) == [x] + Reversed(s)
    ensures s != [] ==> Reversed(s[1..] + [x]) == [x] + Reversed(s)[..|s| - 1]
  {
  }

  // ----- what strtol and strtoul skip -----

  predicate IsCSpace(c: char) { c == ' ' || '\t' <= c <= '\r' }

  function SkipSpace(s: string): string {
    if s != [] && IsCSpace(s[0]) then SkipSpace(s[1..]) else s
  }

  // ----- digits in a base up to sixteen -----

  predicate IsDigit(c: char) { '0' <= c <= '9' }

  predicate AllDigits(s: string) { forall i :: 0 <= i < |s| ==> IsDigit(s[i]) }

  /** The value of a digit in base 36, as strtol and int() read letters of either case. */
  function DigitValue(c: char): Option<nat> {
    if '0' <= c <= '9' then Some((c - '0') as nat)
    else if 'a' <= c <= 'z' then Some((c - 'a') as nat + 10)
    else if 'A' <= c <= 'Z' then Some((c - 'A') as nat + 10)
    else None
  }

  predicate IsDigitIn(c: char, base: nat) {
    DigitValue(c).Some? && DigitValue(c).value < base
  }

  /** The printf digit: lower case for %x. */
  function DigitChar(d: nat): (c: char)
    requires d < 16
    ensures DigitValue(c) == Some(d)
    ensures d < 10 ==> IsDigit(c)
  {
    if d < 10 then '0' + d as char else 'a' + (d - 10) as char
  }

  /** The digit of Python's "X" presentation type. */
  function UpperDigitChar(d: nat): (c: char)
    requires d < 16
    ensures DigitValue(c) == Some(d)
  {
    if d < 10 then '0' + d as char else 'A' + (d - 10) as char
  }

  /** Shortest numeral of n, as %u, %d of a non-negative int, and str() print it. */
  function Dec(n: nat): (s: string)
    ensures |s| >= 1 && AllDigits(s)
  {
    if n < 10 then [DigitChar(n)] else Dec(n / 10) + [DigitChar(n % 10)]
  }

  /** Positional value of a string of decimal digits, leading zeros allowed. */
  function DecValue(s: string): nat
    requires AllDigits(s)
  {
    if s == [] then 0
    else 10 * DecValue(s[..|s| - 1]) + (s[|s| - 1] - '0') as nat
  }

  lemma {:induction false} DecRoundTrip(n: nat)
    ensures DecValue(Dec(n)) == n
  {
    if n >= 10 {
      DecRoundTrip(n / 10);
      assert Dec(n)[..|Dec(n)| - 1] == Dec(n / 10);
    } else {
      assert Dec(n)[..0] == [];
    }
  }

  lemma {:induction false} DecLength(n: nat, digits: nat, bound: nat)
    requires digits >= 1 && bound == Pow10(digits) && n < bound
    ensures |Dec(n)| <= digits
  {
    if n < 10 {
    } else {
      assert Pow10(digits) == 10 * Pow10(digits - 1);
      if digits > 1 {
        DecLength(n / 10, digits - 1, Pow10(digits - 1));
      }
    }
  }

  function Pow10(n: nat): (p: nat)
    ensures p >= 1
  {
    if n == 0 then 1 else 10 * Pow10(n - 1)
  }

  /** n copies of '0'. */
  function Zeros(n: nat): (s: string)
    ensures |s| == n && AllDigits(s)
  {
    seq(n, _ => '0')
  }

  /** Zero padding on the left to at least `width`, as %0<width> and zfill do. */
  function ZeroPad(s: string, width: nat): (r: string)
    ensures |r| == if |s| < width then width else |s|
    ensures AllDigits(s) ==> AllDigits(r)
  {
    if |s| < width then Zeros(width - |s|) + s else s
  }

  lemma {:induction false} LeadingZerosValue(k: nat, s: string)
    requires AllDigits(s)
    ensures AllDigits(Zeros(k) + s)
    ensures DecValue(Zeros(k) + s) == DecValue(s)
  {
    var z := Zeros(k) + s;
    if s == [] {
      assert z == Zeros(k);
      if k > 0 {
        assert Zeros(k)[..k - 1] == Zeros(k - 1);
        LeadingZerosValue(k - 1, []);
        assert Zeros(k - 1) + [] == Zeros(k - 1);
      }
    } else {
      assert z[..|z| - 1] == Zeros(k) + s[..|s| - 1];
      LeadingZerosValue(k, s[..|s| - 1]);
    }
  }

  lemma ZeroPadValue(s: string, width: nat)
    requires AllDigits(s)
    ensures DecValue(ZeroPad(s, width)) == DecValue(s)
  {
    hide DecValue;
    if |s| < width {
      LeadingZerosValue(width - |s|, s);
    }
  }

  // ----- hexadecimal -----

  function HexDigits(n: nat): (s: string)
    ensures |s| >= 1
  {
    if n < 16 then [DigitChar(n)] else HexDigits(n / 16) + [DigitChar(n % 16)]
  }

  /** %0<width>x. */
  function HexPad(n: nat, width: nat): string { ZeroPad(HexDigits(n), width) }

  /** The two digits %02x prints for a byte. */
  function HexPair(b: nat): (s: string)
    requires b < 256
    ensures |s| == 2
  {
    [DigitChar(b / 16), DigitChar(b % 16)]
  }

  lemma HexPadByte(b: nat)
    requires b < 256
    ensures HexPad(b, 2) == HexPair(b)
  {
    if b < 16 {
      assert Zeros(1) == ['0'];
    } else {
      assert HexDigits(b / 16) == [DigitChar(b / 16)];
    }
  }

  lemma SixteenTwice(n: nat)
    ensures n / 16 / 16 == n / 256 && n / 16 % 16 == n % 256 / 16 && n % 16 == n % 256 % 16
  {
  }

  /** Splitting off the last byte of a padded numeral. */
  lemma HexPadSplit(n: nat, width: nat)
    requires width >= 4
    ensures HexPad(n, width) == HexPad(n / 256, width - 2) + HexPair(n % 256)
  {
    if n < 256 {
      HexPadByte(n);
      assert HexPad(0, width - 2) == Zeros(width - 2);
      assert HexPad(n, width) == Zeros(width - 2) + HexPair(n);
    } else {
      LastTwoDigits(n);
      PadBefore(HexDigits(n / 256), HexPair(n % 256), width);
    }
  }

  lemma LastTwoDigits(n: nat)
    requires n >= 256
    ensures HexDigits(n) == HexDigits(n / 256) + HexPair(n % 256)
  {
    SixteenTwice(n);
    assert HexDigits(n / 16) == HexDigits(n / 256) + [DigitChar(n % 256 / 16)];
  }

  lemma PadBefore(s: string, pair: string, width: nat)
    requires |pair| == 2 <= width
    ensures ZeroPad(s + pair, width) == ZeroPad(s, width - 2) + pair
  {
  }

  /** Positional value of hexadecimal digits of either case, if there are any and nothing else. */
  function HexValue(s: string): Option<nat> {
    if s == [] then None
    else if !IsDigitIn(s[|s| - 1], 16) then None
    else if |s| == 1 then DigitValue(s[0])
    else
      match HexValue(s[..|s| - 1])
      case None => None
      case Some(v) => Some(16 * v + DigitValue(s[|s| - 1]).value)
  }

  predicate AllBytes(bs: seq<nat>) { forall i :: 0 <= i < |bs| ==> bs[i] < 256 }

  /** The bytes printed two digits each. */
  function HexBytes(bs: seq<nat>): (s: string)
    requires AllBytes(bs)
    ensures |s| == 2 * |bs|
  {
    if bs == [] then [] else HexPair(bs[0]) + HexBytes(bs[1..])
  }

  lemma {:induction false} HexBytesConcat(a: seq<nat>, b: seq<nat>)
    requires AllBytes(a) && AllBytes(b)
    ensures HexBytes(a + b) == HexBytes(a) + HexBytes(b)
  {
    if a == [] {
      assert a + b == b;
    } else {
      assert (a + b)[1..] == a[1..] + b;
      HexBytesConcat(a[1..], b);
    }
  }

  lemma {:induction false} HexBytesAt(bs: seq<nat>, i: nat)
    requires AllBytes(bs) && i < |bs|
    ensures HexBytes(bs)[2 * i..2 * i + 2] == HexPair(bs[i])
  {
    if i == 0 {
    } else {
      HexBytesAt(bs[1..], i - 1);
      assert HexBytes(bs)[2 * i..2 * i + 2] == HexBytes(bs[1..])[2 * (i - 1)..2 * (i - 1) + 2];
    }
  }

  // ----- byte order -----

  function LittleEndian4(n: nat): (bs: seq<nat>)
    ensures |bs| == 4 && AllBytes(bs)
  {
    [n % 256, n / 256 % 256, n / 65536 % 256, n / 16777216 % 256]
  }

  function BigEndian4(n: nat): (bs: seq<nat>)
    ensures |bs| == 4 && AllBytes(bs)
  {
    [n / 16777216 % 256, n / 65536 % 256, n / 256 % 256, n % 256]
  }

  function LittleEndianValue(bs: seq<nat>): nat {
    if bs == [] then 0 else bs[0] + 256 * LittleEndianValue(bs[1..])
  }

  lemma LittleEndian4Value(n: nat)
    requires n < 0x1_0000_0000
    ensures LittleEndianValue(LittleEndian4(n)) == n
  {
    var bs := LittleEndian4(n);
    assert LittleEndianValue(bs[3..]) == bs[3] by { assert bs[3..][1..] == []; }
    assert LittleEndianValue(bs[2..]) == bs[2] + 256 * bs[3] by { assert bs[2..][1..] == bs[3..]; }
    assert LittleEndianValue(bs[1..]) == bs[1] + 256 * (bs[2] + 256 * bs[3]) by { assert bs[1..][1..] == bs[2..]; }
    ByteDigits(n);
  }

  lemma ByteDigits(n: nat)
    requires n < 0x1_0000_0000
    ensures n == n % 256 + 256 * (n / 256 % 256 + 256 * (n / 65536 % 256 + 256 * (n / 16777216 % 256)))
    ensures n / 256 / 256 == n / 65536 && n / 65536 / 256 == n / 16777216 < 256
  {
  }

  lemma HexPad4(n: nat)
    requires n < 65536
    ensures HexPad(n, 4) == HexPair(n / 256) + HexPair(n % 256)
  {
    HexPadSplit(n, 4);
    HexPadByte(n / 256);
  }

  lemma HexBytes4(a: nat, b: nat, c: nat, d: nat)
    requires a < 256 && b < 256 && c < 256 && d < 256
    ensures HexBytes([a, b, c, d]) == HexPair(a) + HexPair(b) + HexPair(c) + HexPair(d)
  {
    assert [a, b, c, d] == [a] + ([b] + ([c] + [d]));
    HexBytesConcat([a], [b] + ([c] + [d]));
    HexBytesConcat([b], [c] + [d]);
    HexBytesConcat([c], [d]);
  }

  /** %08x prints the four bytes of a 32-bit value, most significant first. */
  lemma HexPadWord(n: nat)
    requires n < 0x1_0000_0000
    ensures HexPad(n, 8) == HexBytes(BigEndian4(n))
  {
    hide HexPad, HexPair, HexBytes;
    ByteDigits(n);
    HexPadSplit(n, 8);
    HexPadSplit(n / 256, 6);
    HexPad4(n / 65536);
    HexBytes4(n / 16777216, n / 65536 % 256, n / 256 % 256, n % 256);
  }

  lemma {:induction false} LittleEndianAppend(bs: seq<nat>, b: nat)
    ensures LittleEndianValue(bs + [b]) == LittleEndianValue(bs) + b * Pow2(8 * |bs|)
  {
    if bs == [] {
      assert [b][1..] == [];
    } else {
      assert (bs + [b])[1..] == bs[1..] + [b];
      LittleEndianAppend(bs[1..], b);
      ByteShift(b, |bs| - 1);
    }
  }

  lemma ByteShift(b: nat, k: nat)
    ensures b * Pow2(8 * (k + 1)) == 256 * (b * Pow2(8 * k))
  {
    Pow2Add(8, 8 * k);
    assert Pow2(8) == 256;
    assert b * (256 * Pow2(8 * k)) == 256 * (b * Pow2(8 * k));
  }

  lemma HexPairValue(b: nat)
    requires b < 256
    ensures HexValue(HexPair(b)) == Some(b)
  {
    var s := HexPair(b);
    assert s[..1] == [s[0]];
    assert HexValue([s[0]]) == Some(b / 16);
  }
}
