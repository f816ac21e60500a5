/** The CPU alarm record: printed by the C library, read by the Python service, and sent to the BMC as a bitmap. */
module CpuAlarm {
  import opened Numerals
  import opened PythonText

  const MAX_CHAR_LEN := 128
  const MAX_DATA_LEN := 999
  const MAX_MSG_LEN := 10485760
  const MAX_SOCKET_ID := 255
  const MAX_CORE_ID := 1024
  const CE := 0
  const UCE := 1
  const CPU := 0
  const BMC := 1
  const ASSERTION := 0
  const DEASSERTION := 1

  // ----- the record -----

  /** %d. */
  function SignedDec(i: int): string { if i < 0 then "-" + Dec(-i) else Dec(i) }

  function ReportInfo(command: uint16, eventType: uint16, socketId: int32, coreId: int32): string {
    Dec(command as nat) + " " +
    (Dec(eventType as nat) + " " + (SignedDec(socketId as int) + " " + SignedDec(coreId as int)))
  }

  predicate CheckParams(kind: uint16, unit: uint16, transTo: uint16, infoLen: nat) {
    kind as int in {CE, UCE} && unit as int == CPU && transTo as int == BMC && infoLen <= 999
  }

  /** The text that is sent, if the parameters are accepted and it fits its buffers. */
  function Report(kind: uint16, unit: uint16, transTo: uint16, command: uint16, eventType: uint16,
                  socketId: int32, coreId: int32): Option<string>
  {
    var info := ReportInfo(command, eventType, socketId, coreId);
    if |info| >= MAX_CHAR_LEN || !CheckParams(kind, unit, transTo, |info|) then None
    else
      var text := "REP" + Dec(kind as nat) + Dec(unit as nat) + ZeroPad(Dec(transTo as nat), 2) +
                  ZeroPad(Dec(|info|), 3) + info;
      if |text| >= MAX_CHAR_LEN then None else Some(text)
  }

  // ----- the receiver -----

  datatype Alarm = Alarm(kind: int, unit: int, transTo: int, command: int, eventType: int, socketId: int, coreId: int)

  /** check_fixed_param for a number: the field must be there, be a number, and be in the range. */
  function CheckNumber(data: string, lo: int, hi: int): Option<int> {
    if data == [] then None
    else
      match IntBase10(data)
      case None => None
      case Some(v) => if lo <= v <= hi then Some(v) else None
  }

  function IntAll(words: seq<string>): Option<seq<int>> {
    if words == [] then Some([])
    else
      match (IntBase10(words[0]), IntAll(words[1..]))
      case (Some(v), Some(vs)) => Some([v] + vs)
      case _ => None
  }

  function ParseInfo(data: string): Option<seq<int>> {
    match IntAll(Words(data))
    case None => None
    case Some(vs) =>
      if |vs| == 4 && ASSERTION <= vs[1] <= DEASSERTION && 0 <= vs[2] <= MAX_SOCKET_ID && 0 <= vs[3] <= MAX_CORE_ID
      then Some(vs) else None
  }

  /** The fields in the order they are received: 3, 1, 1, 2 and 3 characters, then as many as the last one says. */
  function Receive(s: string): Option<Alarm> {
    if Slice(s, 0, 3) != "REP" then None
    else
      match (CheckNumber(Slice(s, 3, 4), CE, UCE), CheckNumber(Slice(s, 4, 5), CPU, CPU),
             CheckNumber(Slice(s, 5, 7), BMC, BMC), CheckNumber(Slice(s, 7, 10), 0, MAX_DATA_LEN))
      case (Some(kind), Some(unit), Some(transTo), Some(len)) =>
        if len < 0 || len > MAX_MSG_LEN then None
        else
          (match ParseInfo(Slice(s, 10, 10 + len))
           case None => None
           case Some(vs) => Some(Alarm(kind, unit, transTo, vs[0], vs[1], vs[2], vs[3])))
      case _ => None
  }

  // ----- printer and receiver together -----

  lemma SignedInt(i: int)
    ensures IntBase10(SignedDec(i)) == Some(i)
    ensures SignedDec(i) != [] && forall k :: 0 <= k < |SignedDec(i)| ==> !IsSpace(SignedDec(i)[k])
  {
    hide Dec, DecValue, IntBase10;
    var n: nat := if i < 0 then -i else i;
    DecRoundTrip(n);
    IntOfDigits(Dec(n));
  }

  lemma InfoWords(a: string, b: string, c: string, d: string)
    requires a != [] && forall k :: 0 <= k < |a| ==> !IsSpace(a[k])
    requires b != [] && forall k :: 0 <= k < |b| ==> !IsSpace(b[k])
    requires c != [] && forall k :: 0 <= k < |c| ==> !IsSpace(c[k])
    requires d != [] && forall k :: 0 <= k < |d| ==> !IsSpace(d[k])
    ensures Words(a + " " + (b + " " + (c + " " + d))) == [a, b, c, d]
  {
    hide Words, IsSpace;
    FirstWord(a, b + " " + (c + " " + d));
    FirstWord(b, c + " " + d);
    FirstWord(c, d);
    FirstWord(d, "");
    assert [a] + ([b] + ([c] + [d])) == [a, b, c, d];
  }

  lemma IntsOfFour(a: string, b: string, c: string, d: string, x: int, y: int, z: int, w: int)
    requires IntBase10(a) == Some(x) && IntBase10(b) == Some(y) && IntBase10(c) == Some(z) && IntBase10(d) == Some(w)
    ensures IntAll([a, b, c, d]) == Some([x, y, z, w])
  {
    hide IntBase10, IntAll;
    var none: seq<string>, noInts: seq<int> := [], [];
    assert [d] + none == [d] && [c] + [d] == [c, d] && [b] + [c, d] == [b, c, d] && [a] + [b, c, d] == [a, b, c, d];
    assert [w] + noInts == [w] && [z] + [w] == [z, w] && [y] + [z, w] == [y, z, w] && [x] + [y, z, w] == [x, y, z, w];
    NoInts(none);
    IntsNext(d, none, w, noInts);
    IntsNext(c, [d], z, [w]);
    IntsNext(b, [c, d], y, [z, w]);
    IntsNext(a, [b, c, d], x, [y, z, w]);
  }

  lemma NoInts(none: seq<string>)
    requires none == []
    ensures IntAll(none) == Some([])
  {
  }

  lemma IntsNext(word: string, rest: seq<string>, v: int, vs: seq<int>)
    requires IntBase10(word) == Some(v) && IntAll(rest) == Some(vs)
    ensures IntAll([word] + rest) == Some([v] + vs)
  {
    hide IntBase10;
  }

  lemma InfoInts(command: uint16, eventType: uint16, socketId: int32, coreId: int32)
    ensures IntAll(Words(ReportInfo(command, eventType, socketId, coreId))) ==
            Some([command as int, eventType as int, socketId as int, coreId as int])
  {
    hide IntBase10, Dec, Words, IntAll, IsSpace;
    SignedInt(command as int);
    SignedInt(eventType as int);
    SignedInt(socketId as int);
    SignedInt(coreId as int);
    InfoWords(SignedDec(command as int), SignedDec(eventType as int), SignedDec(socketId as int),
              SignedDec(coreId as int));
    IntsOfFour(SignedDec(command as int), SignedDec(eventType as int), SignedDec(socketId as int),
               SignedDec(coreId as int), command as int, eventType as int, socketId as int, coreId as int);
  }

  lemma SignedLength(i: int32)
    ensures |SignedDec(i as int)| <= 11
  {
    hide Dec;
    TenDigits();
    DecLength(if i < 0 then -(i as int) else i as int, 10, Pow10(10));
  }

  lemma TenDigits()
    ensures Pow10(10) == 10000000000 && Pow10(5) == 100000
  {
    assert Pow10(5) == 100000;
    assert Pow10(10) == 100000 * Pow10(5);
  }

  lemma InfoLength(command: uint16, eventType: uint16, socketId: int32, coreId: int32)
    ensures |ReportInfo(command, eventType, socketId, coreId)| <= 35
  {
    hide Dec, SignedDec;
    TenDigits();
    DecLength(command as nat, 5, Pow10(5));
    DecLength(eventType as nat, 5, Pow10(5));
    SignedLength(socketId);
    SignedLength(coreId);
  }

  lemma PaddedNumber(n: nat, width: nat, lo: int, hi: int)
    requires lo <= n <= hi && width >= 1
    ensures CheckNumber(ZeroPad(Dec(n), width), lo, hi) == Some(n)
    ensures CheckNumber(Dec(n), lo, hi) == Some(n)
  {
    hide Dec, DecValue, IntBase10;
    DecRoundTrip(n);
    ZeroPadValue(Dec(n), width);
    IntOfDigits(ZeroPad(Dec(n), width));
    IntOfDigits(Dec(n));
  }

  lemma Fields(rep: string, a: string, b: string, c: string, d: string, e: string)
    requires |rep| == 3 && |a| == 1 && |b| == 1 && |c| == 2 && |d| == 3
    ensures var s := rep + a + b + c + d + e;
            && Slice(s, 0, 3) == rep && Slice(s, 3, 4) == a && Slice(s, 4, 5) == b && Slice(s, 5, 7) == c
            && Slice(s, 7, 10) == d && Slice(s, 10, 10 + |e|) == e && |s| == 10 + |e|
  {
  }

  /** What the receiver makes of a record put together from its fields. */
  lemma ReceiveFields(a: string, b: string, c: string, d: string, info: string,
                      kind: int, unit: int, transTo: int, vs: seq<int>)
    requires |a| == 1 && |b| == 1 && |c| == 2 && |d| == 3 && |info| <= MAX_DATA_LEN
    requires CheckNumber(a, CE, UCE) == Some(kind) && CheckNumber(b, CPU, CPU) == Some(unit)
    requires CheckNumber(c, BMC, BMC) == Some(transTo) && CheckNumber(d, 0, MAX_DATA_LEN) == Some(|info|)
    requires IntAll(Words(info)) == Some(vs) && |vs| == 4
    ensures Receive("REP" + a + b + c + d + info) ==
            if vs[1] in {ASSERTION, DEASSERTION} && 0 <= vs[2] <= MAX_SOCKET_ID && 0 <= vs[3] <= MAX_CORE_ID
            then Some(Alarm(kind, unit, transTo, vs[0], vs[1], vs[2], vs[3])) else None
  {
    hide CheckNumber, IntAll, Words, Slice;
    Fields("REP", a, b, c, d, info);
  }

  /** Every record the library prints is read back to the same four numbers if its event type, socket and core are
      in range, and is refused if they are not. The library checks none of these three itself. */
  lemma RecordRoundTrip(kind: uint16, unit: uint16, transTo: uint16, command: uint16, eventType: uint16,
                        socketId: int32, coreId: int32)
    requires kind as int in {0, 1} && unit as int == 0 && transTo as int == 1
    ensures var text := Report(kind, unit, transTo, command, eventType, socketId, coreId);
            && text.Some?
            && Receive(text.value) ==
               if eventType as int in {0, 1} && 0 <= socketId as int <= 255 && 0 <= coreId as int <= 1024
               then Some(Alarm(kind as int, unit as int, transTo as int, command as int, eventType as int,
                               socketId as int, coreId as int))
               else None
  {
    hide ReportInfo, CheckNumber, IntAll, Words, Receive, ZeroPad;
    var info := ReportInfo(command, eventType, socketId, coreId);
    InfoLength(command, eventType, socketId, coreId);
    InfoInts(command, eventType, socketId, coreId);
    PaddedNumber(kind as nat, 1, CE, UCE);
    PaddedNumber(unit as nat, 1, CPU, CPU);
    PaddedNumber(transTo as nat, 2, BMC, BMC);
    PaddedNumber(|info|, 3, 0, MAX_DATA_LEN);
    HundredTwentyEight(|info|);
    ReceiveFields(Dec(kind as nat), Dec(unit as nat), ZeroPad(Dec(transTo as nat), 2), ZeroPad(Dec(|info|), 3), info,
                  kind as int, unit as int, transTo as int,
                  [command as int, eventType as int, socketId as int, coreId as int]);
  }

  lemma HundredTwentyEight(n: nat)
    requires n < MAX_CHAR_LEN
    ensures |ZeroPad(Dec(n), 3)| == 3
  {
    assert Pow10(3) == 1000;
    DecLength(n, 3, 1000);
  }

  /** The library refuses every other type, module or destination. */
  lemma OtherParamsRefused(kind: uint16, unit: uint16, transTo: uint16, command: uint16, eventType: uint16,
                           socketId: int32, coreId: int32)
    ensures Report(kind, unit, transTo, command, eventType, socketId, coreId).Some? <==>
              kind as int in {0, 1} && unit as int == 0 && transTo as int == 1
  {
    hide ReportInfo;
    if CheckParams(kind, unit, transTo, 0) { RecordRoundTrip(kind, unit, transTo, command, eventType, socketId, coreId); }
  }

  // ----- the bitmap -----

  const DEFAULT_CORE_ID_ARRAY_CAPACITY := 32

  function Capacity(cpuNumPerGroup: nat): (c: nat)
    ensures c % 8 == 0 && c >= cpuNumPerGroup && c >= DEFAULT_CORE_ID_ARRAY_CAPACITY
  {
    if cpuNumPerGroup > DEFAULT_CORE_ID_ARRAY_CAPACITY then (cpuNumPerGroup + 7) / 8 * 8
    else DEFAULT_CORE_ID_ARRAY_CAPACITY
  }

  /** The capacity is the least whole number of bytes, in bits, that holds a group, and four bytes at least. */
  lemma CapacityExactly(cpuNumPerGroup: nat, c: nat)
    ensures c == Capacity(cpuNumPerGroup) <==>
              && c % 8 == 0 && c >= cpuNumPerGroup && c >= 32
              && (c == 32 || c - 8 < cpuNumPerGroup)
  {
  }

  /** int(s, 2) on zeros and ones. */
  function BinValue(s: string): nat {
    if s == [] then 0 else 2 * BinValue(s[..|s| - 1]) + if s[|s| - 1] == '1' then 1 else 0
  }

  /** bin(1 << n) without its prefix. */
  function BinOfPow2(n: nat): (s: string)
    ensures |s| == n + 1
  {
    "1" + Zeros(n)
  }

  /** The intervals of g consecutive CPUs, the last one possibly reaching past the last CPU. */
  function Intervals(cpuNum: nat, g: nat, i: nat): seq<(nat, nat)>
    requires g > 0
    decreases cpuNum - i
  {
    if i >= cpuNum then [] else [(i, i + g - 1)] + Intervals(cpuNum, g, i + g)
  }

  /** What the interval computation yields: the intervals, nothing because a command failed, or an exception. */
  datatype Siblings = Groups(list: seq<(nat, nat)>, perGroup: nat) | Unavailable | Raised

  ghost predicate CountsValid(coreCounts: seq<nat>, threadCounts: seq<nat>) {
    |coreCounts| == |threadCounts| && forall i :: 0 <= i < |coreCounts| ==> 0 < coreCounts[i] <= threadCounts[i]
  }

  function GroupNum(coreCounts: seq<nat>, threadCounts: seq<nat>): nat
    requires |coreCounts| == |threadCounts| && forall i :: 0 <= i < |coreCounts| ==> coreCounts[i] > 0
  {
    if coreCounts == [] then 0
    else
      var n := |coreCounts| - 1;
      GroupNum(coreCounts[..n], threadCounts[..n]) + threadCounts[n] / coreCounts[n]
  }

  /** The groups of several sockets are those of the one and those of the others. */
  lemma GroupNumAdds(coreCounts: seq<nat>, threadCounts: seq<nat>, cores: nat, threads: nat)
    requires |coreCounts| == |threadCounts| && cores > 0
    requires forall i :: 0 <= i < |coreCounts| ==> coreCounts[i] > 0
    ensures GroupNum([], []) == 0
    ensures GroupNum(coreCounts + [cores], threadCounts + [threads]) ==
            GroupNum(coreCounts, threadCounts) + threads / cores
  {
    assert (coreCounts + [cores])[..|coreCounts|] == coreCounts;
    assert (threadCounts + [threads])[..|coreCounts|] == threadCounts;
  }

  method CountGroups(coreCounts: seq<nat>, threadCounts: seq<nat>) returns (groupNum: Option<nat>)
    requires |coreCounts| == |threadCounts|
    ensures groupNum.Some? <==> CountsValid(coreCounts, threadCounts)
    ensures groupNum == None <==>
              exists i :: 0 <= i < |coreCounts| && (coreCounts[i] == 0 || threadCounts[i] < coreCounts[i])
    ensures groupNum.Some? ==> groupNum.value == GroupNum(coreCounts, threadCounts)
  {
    var sum := 0;
    for i := 0 to |coreCounts|
      invariant CountsValid(coreCounts[..i], threadCounts[..i])
      invariant sum == GroupNum(coreCounts[..i], threadCounts[..i])
    {
      if coreCounts[i] == 0 || threadCounts[i] < coreCounts[i] {
        return None;
      }
      assert coreCounts[..i + 1][..i] == coreCounts[..i] && threadCounts[..i + 1][..i] == threadCounts[..i];
      sum := sum + threadCounts[i] / coreCounts[i];
    }
    assert coreCounts[..|coreCounts|] == coreCounts && threadCounts[..|coreCounts|] == threadCounts;
    groupNum := Some(sum);
  }

  /** The counts dmidecode printed, none if it failed, and the number lscpu printed, negative if that failed. */
  method GetCpuInterval(counts: Option<(seq<nat>, seq<nat>)>, cpuNum: int) returns (r: Siblings)
    ensures r.Unavailable? <==>
              counts == None || (CountsValid(counts.value.0, counts.value.1) && cpuNum < 0)
    ensures r.Groups? <==>
              counts.Some? && CountsValid(counts.value.0, counts.value.1) &&
              0 < GroupNum(counts.value.0, counts.value.1) <= cpuNum
    ensures r.Groups? ==>
              r.perGroup == cpuNum / GroupNum(counts.value.0, counts.value.1) > 0 &&
              r.list == Intervals(cpuNum, r.perGroup, 0)
  {
    if counts == None {
      return Unavailable;
    }
    var (coreCounts, threadCounts) := counts.value;
    if |coreCounts| != |threadCounts| {
      return Raised;
    }
    var groups := CountGroups(coreCounts, threadCounts);
    if groups == None {
      return Raised;
    }
    if cpuNum < 0 {
      return Unavailable;
    }
    if groups.value == 0 {
      return Raised;
    }
    var perGroup := cpuNum / groups.value;
    QuotientPositive(cpuNum, groups.value);
    if perGroup <= 0 {
      return Raised;
    }
    var list := CollectIntervals(cpuNum, perGroup);
    r := Groups(list, perGroup);
  }

  lemma QuotientPositive(n: nat, d: nat)
    requires d > 0
    ensures n / d > 0 <==> d <= n
  {
    if n < d { DivUnique(n, d, 0, n); } else { assert n / d >= 1; }
  }

  method CollectIntervals(cpuNum: nat, perGroup: nat) returns (siblings: seq<(nat, nat)>)
    requires perGroup > 0
    ensures siblings == Intervals(cpuNum, perGroup, 0)
  {
    hide Intervals;
    siblings := [];
    var i := 0;
    NextInterval(cpuNum, perGroup, 0);
    while i < cpuNum
      invariant siblings + Intervals(cpuNum, perGroup, i) == Intervals(cpuNum, perGroup, 0)
      decreases cpuNum - i
    {
      NextInterval(cpuNum, perGroup, i);
      assert siblings + ([(i, i + perGroup - 1)] + Intervals(cpuNum, perGroup, i + perGroup)) ==
             siblings + [(i, i + perGroup - 1)] + Intervals(cpuNum, perGroup, i + perGroup);
      siblings := siblings + [(i, i + perGroup - 1)];
      i := i + perGroup;
    }
    NextInterval(cpuNum, perGroup, i);
  }

  lemma NextInterval(cpuNum: nat, g: nat, i: nat)
    requires g > 0
    ensures Intervals(cpuNum, g, i) ==
            if i >= cpuNum then [] else [(i, i + g - 1)] + Intervals(cpuNum, g, i + g)
  {
  }

  function GetCoreId(logical: nat, siblings: seq<(nat, nat)>): int {
    if siblings == [] then -1
    else if siblings[0].0 <= logical <= siblings[0].1 then logical - siblings[0].0
    else GetCoreId(logical, siblings[1..])
  }

  /** A logical CPU is mapped if and only if it is in one of the groups, and then to its place within the group. */
  lemma {:induction false} CoreIdIsPlace(logical: nat, cpuNum: nat, g: nat, i: nat)
    requires g > 0 && i % g == 0 && i <= logical
    ensures GetCoreId(logical, Intervals(cpuNum, g, i)) ==
            if logical - logical % g < cpuNum then logical % g else -1
    decreases cpuNum - i
  {
    var q := i / g;
    assert i == q * g;
    if i >= cpuNum {
      StartOfGroup(logical, q, g);
    } else if logical <= i + g - 1 {
      DivUnique(logical, g, q, logical - i);
    } else {
      DivUnique(i + g, g, q + 1, 0);
      assert Intervals(cpuNum, g, i)[1..] == Intervals(cpuNum, g, i + g);
      CoreIdIsPlace(logical, cpuNum, g, i + g);
    }
  }

  lemma StartOfGroup(logical: nat, q: nat, g: nat)
    requires g > 0 && q * g <= logical
    ensures logical - logical % g >= q * g
  {
    var p, r := logical / g, logical % g;
    assert logical == p * g + r;
    if p < q {
      assert (q - p) * g == q * g - p * g;
      MulAtLeast(q - p, g);
    } else {
      assert (p - q) * g == p * g - q * g;
    }
  }

  /** The bytes the loop cuts out of the padded text, first chunk first. */
  function Chunks(s: string, n: nat): (bs: seq<nat>)
    requires 8 * n <= |s|
    ensures |bs| == n
  {
    if n == 0 then [] else Chunks(s, n - 1) + [BinValue(s[8 * (n - 1)..8 * n])]
  }

  method UploadBitmap(coreId: nat, perGroup: nat) returns (bytes: seq<nat>)
    requires coreId < perGroup
    ensures bytes == Reversed(Chunks(ZeroPad(BinOfPow2(coreId), Capacity(perGroup)), Capacity(perGroup) / 8))
    ensures 8 * |bytes| == Capacity(perGroup) && AllBytes(bytes) && LittleEndianValue(bytes) == Pow2(coreId)
  {
    hide BinOfPow2, ZeroPad, LittleEndianValue, Pow2, BinValue;
    BitmapBytes(coreId, perGroup);
    var capacity := Capacity(perGroup);
    var bits := ZeroPad(BinOfPow2(coreId), capacity);
    var coreIdArray: seq<nat> := [];
    var i := 0;
    ghost var k, chunks := 0, capacity / 8;
    while i < capacity
      invariant i == 8 * k && k <= chunks && capacity == 8 * chunks == |bits|
      invariant coreIdArray == Chunks(bits, k)
    {
      coreIdArray := coreIdArray + [BinValue(bits[i..i + 8])];
      i := i + 8;
      k := k + 1;
    }
    bytes := Reversed(coreIdArray);
  }

  lemma {:induction false} BinConcat(a: string, b: string)
    ensures BinValue(a + b) == Pow2(|b|) * BinValue(a) + BinValue(b)
  {
    if b == [] {
      assert a + b == a;
    } else {
      var n := |b| - 1;
      BinConcat(a, b[..n]);
      assert (a + b)[..|a + b| - 1] == a + b[..n] && (a + b)[|a + b| - 1] == b[n];
      DoubleProduct(Pow2(n), BinValue(a), Pow2(|b|));
    }
  }

  lemma {:induction false} BinBelow(s: string)
    ensures BinValue(s) < Pow2(|s|)
  {
    if s == [] {
    } else {
      BinBelow(s[..|s| - 1]);
    }
  }

  lemma {:induction false} BinZeros(n: nat)
    ensures BinValue(Zeros(n)) == 0
  {
    if n == 0 {
    } else {
      assert Zeros(n)[..n - 1] == Zeros(n - 1);
      BinZeros(n - 1);
    }
  }

  /** The chunks in reverse order are the little-endian bytes of the number. */
  lemma {:induction false} ChunksValue(s: string, n: nat)
    requires 8 * n <= |s|
    ensures AllBytes(Reversed(Chunks(s, n)))
    ensures LittleEndianValue(Reversed(Chunks(s, n))) == BinValue(s[..8 * n])
  {
    hide BinValue, LittleEndianValue, Pow2;
    if n == 0 {
      NothingSent(s);
    } else {
      var init, last := s[..8 * (n - 1)], s[8 * (n - 1)..8 * n];
      ChunksValue(s, n - 1);
      var rest := Reversed(Chunks(s, n - 1));
      ReversedPush(Chunks(s, n - 1), BinValue(last));
      assert Reversed(Chunks(s, n)) == [BinValue(last)] + rest;
      hide Reversed, Chunks;
      assert s[..8 * n] == init + last;
      BinConcat(init, last);
      BinBelow(last);
      EightBits();
      FirstByte(BinValue(last), rest);
    }
  }

  lemma NothingSent(s: string)
    ensures LittleEndianValue([]) == 0 && BinValue(s[..0]) == 0
  {
  }

  lemma EightBits()
    ensures Pow2(8) == 256
  {
  }

  lemma FirstByte(b: nat, bs: seq<nat>)
    ensures LittleEndianValue([b] + bs) == b + 256 * LittleEndianValue(bs)
  {
  }

  lemma BitmapBytes(core: nat, perGroup: nat)
    requires core < perGroup
    ensures var capacity := Capacity(perGroup);
            && |ZeroPad(BinOfPow2(core), capacity)| == capacity
            && var bytes := Reversed(Chunks(ZeroPad(BinOfPow2(core), capacity), capacity / 8));
               8 * |bytes| == capacity && AllBytes(bytes) && LittleEndianValue(bytes) == Pow2(core)
  {
    var capacity := Capacity(perGroup);
    var bits := ZeroPad(BinOfPow2(core), capacity);
    assert |bits| == capacity;
    ChunksValue(bits, capacity / 8);
    assert bits[..8 * (capacity / 8)] == bits;
    PaddedPow2(core, capacity);
  }

  /** For every logical core that is mapped, the bytes sent are the little-endian encoding of two to its place
      in its group, which always fits the chosen capacity. */
  lemma BitmapEncodesCore(logical: nat, cpuNum: nat, perGroup: nat)
    requires perGroup > 0 && GetCoreId(logical, Intervals(cpuNum, perGroup, 0)) >= 0
    ensures var core, capacity := GetCoreId(logical, Intervals(cpuNum, perGroup, 0)), Capacity(perGroup);
            && core == logical % perGroup && core < perGroup <= capacity
            && |ZeroPad(BinOfPow2(core), capacity)| == capacity
            && var bytes := Reversed(Chunks(ZeroPad(BinOfPow2(core), capacity), capacity / 8));
               8 * |bytes| == capacity && AllBytes(bytes) && LittleEndianValue(bytes) == Pow2(core)
  {
    CoreIdIsPlace(logical, cpuNum, perGroup, 0);
    BitmapBytes(logical % perGroup, perGroup);
  }

  lemma PaddedPow2(core: nat, width: nat)
    requires core < width
    ensures BinValue(ZeroPad(BinOfPow2(core), width)) == Pow2(core)
  {
    hide Pow2, BinValue;
    BinOne();
    BinConcat("1", Zeros(core));
    BinZeros(core);
    if core + 1 < width {
      BinConcat(Zeros(width - core - 1), BinOfPow2(core));
      BinZeros(width - core - 1);
    }
  }

  lemma BinOne()
    ensures BinValue("1") == 1
  {
    assert "1"[..0] == "";
  }
}
