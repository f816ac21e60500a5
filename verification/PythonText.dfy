/** Python's string operations as far as the parsers use them, over ASCII text. */
module PythonText {
  import opened Numerals

  predicate IsSpace(c: char) {
    c == ' ' || '\t' <= c <= '\r' || 28 as char <= c <= 31 as char
  }

  function StripLeft(s: string): string {
    if s != [] && IsSpace(s[0]) then StripLeft(s[1..]) else s
  }

  function StripRight(s: string): string {
    if s != [] && IsSpace(s[|s| - 1]) then StripRight(s[..|s| - 1]) else s
  }

  function Strip(s: string): string { StripRight(StripLeft(s)) }

  /** Python's s[lo:hi] for 0 <= lo <= hi. */
  function Slice<T>(s: seq<T>, lo: nat, hi: nat): (r: seq<T>)
    requires lo <= hi
  {
    if |s| <= lo then [] else if |s| <= hi then s[lo..] else s[lo..hi]
  }

  function UpperHexDigits(n: nat): (s: string)
    ensures |s| >= 1
  {
    if n < 16 then [UpperDigitChar(n)] else UpperHexDigits(n / 16) + [UpperDigitChar(n % 16)]
  }

  /** "{:#04X}".format(n). */
  function FormatByte(n: int): string {
    if n < 0 then "-0X" + ZeroPad(UpperHexDigits(-n), 1) else "0X" + ZeroPad(UpperHexDigits(n), 2)
  }

  /** int(s) without the underscores Python also allows between digits. */
  function IntBase10(s: string): Option<int> {
    var t := Strip(s);
    var signed := t != [] && (t[0] == '-' || t[0] == '+');
    var d := if signed then t[1..] else t;
    if d == [] || !AllDigits(d) then None
    else
      var v: int := DecValue(d);
      Some(if signed && t[0] == '-' then -v else v)
  }

  function WordLength(s: string): (n: nat)
    ensures n <= |s| && (forall i :: 0 <= i < n ==> !IsSpace(s[i])) && (n < |s| ==> IsSpace(s[n]))
  {
    if s == [] || IsSpace(s[0]) then 0 else 1 + WordLength(s[1..])
  }

  /** s.split(). */
  function Words(s: string): seq<string>
    decreases |s|
  {
    if s == [] then []
    else if IsSpace(s[0]) then Words(s[1..])
    else
      var n := WordLength(s);
      [s[..n]] + Words(s[n..])
  }

  lemma {:induction false} WordEnds(s: string, n: nat)
    requires n <= |s| && (forall i :: 0 <= i < n ==> !IsSpace(s[i])) && (n < |s| ==> IsSpace(s[n]))
    ensures WordLength(s) == n
  {
    if n == 0 {
    } else {
      WordEnds(s[1..], n - 1);
    }
  }

  lemma FirstWord(a: string, b: string)
    requires a != [] && forall i :: 0 <= i < |a| ==> !IsSpace(a[i])
    ensures Words(a + " " + b) == [a] + Words(b) && Words(a) == [a]
  {
    var s := a + " " + b;
    WordEnds(s, |a|);
    WordEnds(a, |a|);
    assert s[0] == a[0] && s[..|a|] == a && a[..|a|] == a && s[|a|..][1..] == b;
    assert s[|a|..][0] == ' ';
  }

  lemma StripEnds(s: string)
    requires s != [] && !IsSpace(s[0]) && !IsSpace(s[|s| - 1])
    ensures Strip(s) == s
    ensures Strip(s + "\n") == s
  {
    assert StripRight(s) == s;
    assert (s + "\n")[..|s|] == s;
  }

  lemma IntOfDigits(d: string)
    requires d != [] && AllDigits(d)
    ensures IntBase10(d) == Some(DecValue(d)) && IntBase10("-" + d) == Some(0 - DecValue(d))
  {
    assert IsDigit(d[0]) && IsDigit(d[|d| - 1]);
    StripEnds(d);
    var m := "-" + d;
    assert m[|m| - 1] == d[|d| - 1] && m[1..] == d;
    StripEnds(m);
  }
}
