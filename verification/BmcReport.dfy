/**
 * The text the HBM repair handler prints for the BMC service, and the parser of that service, which
 * turns it into an ipmitool command line. Printer and parser are in two languages and share only the text.
 */
module BmcReport {
  import opened Numerals
  import opened HbmSection
  import opened PythonText

  // ----- the printer -----

  const ISOLATE_FAILED_OVER_THRESHOLD: nat := 0x81
  const ISOLATE_FAILED_OTHER_REASON: nat := 0x82
  const REPAIR_FAILED_NO_RESOURCE: nat := 0x94
  const REPAIR_FAILED_INVALID_PARAM: nat := 0x98
  const REPAIR_FAILED_OTHER_REASON: nat := 0x9c
  const ONLINE_PAGE_FAILED: nat := 0xa0
  const ISOLATE_REPAIR_ONLINE_SUCCESS: nat := 0

  const RESULT_CODES: set<nat> := {
    ISOLATE_FAILED_OVER_THRESHOLD, ISOLATE_FAILED_OTHER_REASON, REPAIR_FAILED_NO_RESOURCE,
    REPAIR_FAILED_INVALID_PARAM, REPAIR_FAILED_OTHER_REASON, ONLINE_PAGE_FAILED, ISOLATE_REPAIR_ONLINE_SUCCESS}

  const ROW_FAULT: nat := 1
  const SINGLE_ADDR_FAULT: nat := 6
  const MESSAGE_BUFFER := 84   // sizeof(BMC_REPORT_FORMAT)

  function TypeCodes(e: Section): (nat, nat)
    requires Readable(e)
  {
    if HasBit(e.regs[0], 0) then (0, SINGLE_ADDR_FAULT)
    else if HasBit(e.regs[0], 1) then (1, SINGLE_ADDR_FAULT)
    else if HasBit(e.regs[0], 2) then (2, ROW_FAULT)
    else if HasBit(e.regs[0], 3) then (3, ROW_FAULT)
    else (0, 0)
  }

  /** BMC_REPORT_FORMAT filled in, in the groups the receiver cuts it into. */
  function FormatReport(repairType: nat, result: nat, isolation: nat, f: seq<nat>): string
    requires |f| == FAULT_FIELD_NUM
  {
    "REP" + (FormatStart(repairType, result, isolation, f) + FormatEnd(f))
  }

  function FormatStart(repairType: nat, result: nat, isolation: nat, f: seq<nat>): string
    requires |f| == FAULT_FIELD_NUM
  {
    FormatHead(repairType, result, isolation) + Zeros(16) + FormatPlace(f)
  }

  function FormatEnd(f: seq<nat>): string
    requires |f| == FAULT_FIELD_NUM
  {
    HexPad(f[ROW_ID], 8) + HexPad(f[COLUMN_ID], 8) + Zeros(10)
  }

  function FormatHead(repairType: nat, result: nat, isolation: nat): string {
    "00" + HexPad(repairType, 2) + HexPad(result, 2) + HexPad(isolation, 2)
  }

  function FormatPlace(f: seq<nat>): string
    requires |f| == FAULT_FIELD_NUM
  {
    HexPad(f[PROCESSOR_ID], 2) + HexPad(f[DIE_ID], 2) + HexPad(f[STACK_ID], 2) + "00" +
    (HexPad(f[SID], 2) + "00" + HexPad(f[CHANNEL_ID], 2) + HexPad(f[BANKGROUP_ID], 2)) + HexPad(f[BANK_ID], 2)
  }

  /** What notice_BMC writes to the socket; snprintf keeps one byte of the buffer for the terminator. */
  function NoticeText(e: Section, result: nat): string
    requires Readable(e) && e.regArraySize >= 8
  {
    var (repairType, isolation) := TypeCodes(e);
    var text := FormatReport(repairType, result, isolation, FaultFields(FaultAddress(e)));
    if |text| < MESSAGE_BUFFER then text else text[..MESSAGE_BUFFER - 1]
  }

  // ----- the parser -----

  /** int(s, 16) on the strings of at most two characters the parser cuts out. */
  function IntBase16(s: string): Option<int> {
    var t := StripRight(StripLeft(s));
    if t != [] && (t[0] == '-' || t[0] == '+') then
      match HexValue(t[1..])
      case None => None
      case Some(v) => var i: int := v; Some(if t[0] == '-' then -i else i)
    else
      match HexValue(t)
      case None => None
      case Some(v) => Some(v)
  }

  lemma OneDigit(c: char)
    requires IsDigitIn(c, 16)
    ensures HexValue([c]) == Some(DigitValue(c).value) && !IsSpace(c) && c != '-' && c != '+'
    ensures StripRight(StripLeft([c])) == [c] && StripRight(StripLeft([' ', c])) == [c]
    ensures StripRight(StripLeft([c, ' '])) == [c] && StripRight(StripLeft(['-', c])) == ['-', c]
    ensures StripRight(StripLeft(['+', c])) == ['+', c]
  {
    assert [' ', c][1..] == [c] && [c, ' '][..1] == [c];
  }

  /** One digit with a sign or a space beside it, as int() takes it. */
  lemma SignedDigits(c: char)
    requires IsDigitIn(c, 16)
    ensures var v: int := DigitValue(c).value;
            && IntBase16(['-', c]) == Some(-v) && IntBase16(['+', c]) == Some(v)
            && IntBase16([' ', c]) == Some(v) && IntBase16([c, ' ']) == Some(v) && IntBase16([c]) == Some(v)
  {
    OneDigit(c);
    hide StripLeft, StripRight, HexValue;
    assert ['-', c][1..] == [c] && ['+', c][1..] == [c];
  }

  function HexCharToInt(data: string, bit: nat): Option<int> {
    IntBase16(Slice(data, 2 * bit, 2 * bit + 2))
  }

  function Tokens(bs: seq<int>): (ts: seq<string>)
    ensures |ts| == |bs|
  {
    seq(|bs|, i requires 0 <= i < |bs| => FormatByte(bs[i]))
  }

  const COMMAND_HEAD: seq<string> :=
    ["ipmitool", "raw", "0x30", "0x92", "0xdb", "0x07", "0x00", "0x65", "0x01", "0x00"]
  const SEND_ROW := 30
  const SEND_COL := 34
  const TYPE_OFFSET := 7

  /** The integers of the first n byte positions, none if one of them is not a number. */
  function HexInts(data: string, n: nat): (r: Option<seq<int>>)
    ensures r.Some? ==> |r.value| == n
  {
    if n == 0 then Some([])
    else
      match (HexInts(data, n - 1), HexCharToInt(data, n - 1))
      case (Some(vs), Some(v)) => Some(vs + [v])
      case _ => None
  }

  /** list[at:at+4] = reverse_byte(list[at:at+4]); an index error when four elements are not there. */
  function ReverseFour<T>(s: seq<T>, at: nat): (r: Option<seq<T>>)
    ensures r.Some? <==> |s| >= at + 4
    ensures r.Some? ==> |r.value| == |s|
  {
    if |s| < at + 4 then None
    else Some(s[..at] + [s[at + 3], s[at + 2], s[at + 1], s[at]] + s[at + 4..])
  }

  /** The command line for a report whose header has been removed; none when the parser raises. */
  function ParseReport(data: string): Option<seq<string>> {
    Command(Head(data), OtherInts(data))
  }

  function Head(data: string): Option<seq<int>> {
    CheckedHead(HexCharToInt(data, 1), HexCharToInt(data, 2), HexCharToInt(data, 3))
  }

  function CheckedHead(repairType: Option<int>, result: Option<int>, isolation: Option<int>): Option<seq<int>> {
    match (repairType, result, isolation)
    case (Some(t), Some(r), Some(i)) =>
      if 7 <= t + TYPE_OFFSET <= 10 && r >= 0 && r in RESULT_CODES && i in {ROW_FAULT, SINGLE_ADDR_FAULT}
      then Some([t + TYPE_OFFSET, r, i]) else None
    case _ => None
  }

  /** The numbers after the fourth byte position. */
  function OtherInts(data: string): Option<seq<int>> {
    var rest := Slice(data, 8, 8 + |data|);
    HexInts(rest, |rest| / 2)
  }

  function Command(checked: Option<seq<int>>, others: Option<seq<int>>): Option<seq<string>> {
    match (checked, others)
    case (Some(head), Some(ints)) => ReverseRowAndColumn(COMMAND_HEAD + Tokens(head + ints))
    case _ => None
  }

  function ReverseRowAndColumn(cmd: seq<string>): Option<seq<string>> {
    match ReverseFour(cmd, SEND_ROW)
    case None => None
    case Some(cmd1) => ReverseFour(cmd1, SEND_COL)
  }

  const RECEIVE_LEN := 128

  /** bmc_recv up to the command that is executed. */
  function Receive(message: string): Option<seq<string>> {
    var data := Slice(message, 0, RECEIVE_LEN);
    if Slice(data, 0, 3) != "REP" then None
    else
      var body := Slice(data, 3, 3 + |data|);
      if HexCharToInt(body, 0) != Some(0) then None else ParseReport(body)
  }

  /** The loop over the bytes that are sent on unchanged. */
  method CollectOthers(rest: string) returns (other: seq<string>, raised: bool)
    ensures raised <==> HexInts(rest, |rest| / 2) == None
    ensures !raised ==> other == Tokens(HexInts(rest, |rest| / 2).value)
  {
    other, raised := [], false;
    ghost var ints: seq<int> := [];
    for i := 0 to |rest| / 2
      invariant !raised && HexInts(rest, i) == Some(ints) && other == Tokens(ints)
    {
      var v := HexCharToInt(rest, i);
      if v == None {
        HexIntsFails(rest, i, |rest| / 2);
        raised := true;
        return;
      }
      other := other + [FormatByte(v.value)];
      ints := ints + [v.value];
    }
  }

  /** The parser as written: one list, extended and then changed in place at two slices. */
  method ParseHbmcReport(data: string) returns (cmdList: seq<string>, raised: bool)
    ensures raised <==> ParseReport(data) == None
    ensures !raised ==> ParseReport(data) == Some(cmdList)
  {
    hide HexCharToInt, FormatByte, Tokens, ReverseFour, HexInts;
    cmdList, raised := [], true;
    var repairType := HexCharToInt(data, 1);
    if repairType == None || !(7 <= repairType.value + TYPE_OFFSET <= 10) { return; }
    var result := HexCharToInt(data, 2);
    if result == None || result.value < 0 || result.value !in RESULT_CODES { return; }
    var isolation := HexCharToInt(data, 3);
    if isolation == None || isolation.value !in {ROW_FAULT, SINGLE_ADDR_FAULT} { return; }
    cmdList := COMMAND_HEAD + [FormatByte(repairType.value + TYPE_OFFSET), FormatByte(result.value),
                               FormatByte(isolation.value)];
    var other, bad := CollectOthers(Slice(data, 8, 8 + |data|));
    if bad { return; }
    cmdList := cmdList + other;
    ghost var ints := HexInts(Slice(data, 8, 8 + |data|), |Slice(data, 8, 8 + |data|)| / 2).value;
    TokensOfThree(repairType.value + TYPE_OFFSET, result.value, isolation.value);
    TokensConcat([repairType.value + TYPE_OFFSET, result.value, isolation.value], ints);
    assert cmdList == COMMAND_HEAD + Tokens([repairType.value + TYPE_OFFSET, result.value, isolation.value] + ints);
    cmdList, bad := ReverseSlice(cmdList, SEND_ROW);
    if bad { return; }
    cmdList, bad := ReverseSlice(cmdList, SEND_COL);
    if bad { return; }
    raised := false;
  }

  method ReverseSlice(list: seq<string>, at: nat) returns (r: seq<string>, raised: bool)
    ensures raised <==> ReverseFour(list, at) == None
    ensures !raised ==> ReverseFour(list, at) == Some(r)
  {
    r, raised := list, |list| < at + 4;
    if !raised {
      r := list[at := list[at + 3]][at + 1 := list[at + 2]][at + 2 := list[at + 1]][at + 3 := list[at]];
      assert r == ReverseFour(list, at).value;
    }
  }

  lemma TokensConcat(a: seq<int>, b: seq<int>)
    ensures Tokens(a + b) == Tokens(a) + Tokens(b)
  {
    hide FormatByte;
  }

  lemma TokensOfThree(x: int, y: int, z: int)
    ensures Tokens([x, y, z]) == [FormatByte(x), FormatByte(y), FormatByte(z)]
  {
    hide FormatByte;
  }

  lemma {:induction false} HexIntsFails(data: string, i: nat, n: nat)
    requires HexCharToInt(data, i) == None && i < n
    ensures HexInts(data, n) == None
  {
    hide HexCharToInt;
    if i + 1 == n {
    } else {
      HexIntsFails(data, i, n - 1);
    }
  }

  // ----- printer and parser together -----

  lemma PairIsInt(b: nat)
    requires b < 256
    ensures IntBase16(HexPair(b)) == Some(b)
  {
    var s := HexPair(b);
    NotSpace(b / 16);
    NotSpace(b % 16);
    assert StripRight(StripLeft(s)) == s;
    HexPairValue(b);
  }

  lemma NotSpace(d: nat)
    requires d < 16
    ensures !IsSpace(DigitChar(d)) && DigitChar(d) != '-' && DigitChar(d) != '+'
  {
  }

  lemma ByteAtIsInt(bs: seq<nat>, i: nat)
    requires AllBytes(bs) && i < |bs|
    ensures HexCharToInt(HexBytes(bs), i) == Some(bs[i])
  {
    var s := HexBytes(bs);
    HexBytesAt(bs, i);
    assert Slice(s, 2 * i, 2 * i + 2) == s[2 * i..2 * i + 2];
    PairIsInt(bs[i]);
  }

  lemma {:induction false} BytesAreInts(bs: seq<nat>, n: nat)
    requires AllBytes(bs) && n <= |bs|
    ensures HexInts(HexBytes(bs), n) == Some(bs[..n])
  {
    hide HexCharToInt, HexBytes;
    if n == 0 {
    } else {
      BytesAreInts(bs, n - 1);
      ByteAtIsInt(bs, n - 1);
      assert bs[..n] == bs[..n - 1] + [bs[n - 1]];
      NextInt(HexBytes(bs), n - 1, bs[..n - 1], bs[n - 1]);
    }
  }

  lemma NextInt(data: string, n: nat, vs: seq<int>, v: int)
    requires HexInts(data, n) == Some(vs) && HexCharToInt(data, n) == Some(v)
    ensures HexInts(data, n + 1) == Some(vs + [v])
  {
    hide HexCharToInt;
  }

  /** The place of the fault, one byte for each field and for each gap of the format. */
  function PlaceBytes(f: seq<nat>): (bs: seq<nat>)
    requires |f| == FAULT_FIELD_NUM
    ensures |bs| == 9
  {
    [f[PROCESSOR_ID], f[DIE_ID], f[STACK_ID], 0, f[SID], 0, f[CHANNEL_ID], f[BANKGROUP_ID], f[BANK_ID]]
  }

  const EIGHT_ZEROS: seq<nat> := [0, 0, 0, 0, 0, 0, 0, 0]
  const FIVE_ZEROS: seq<nat> := [0, 0, 0, 0, 0]

  function StartBytes(repairType: nat, result: nat, isolation: nat, f: seq<nat>): (bs: seq<nat>)
    requires |f| == FAULT_FIELD_NUM
    ensures |bs| == 21
  {
    [0, repairType, result, isolation] + EIGHT_ZEROS + PlaceBytes(f)
  }

  function EndBytes(f: seq<nat>): (bs: seq<nat>)
    requires |f| == FAULT_FIELD_NUM
    ensures |bs| == 13
  {
    BigEndian4(f[ROW_ID]) + BigEndian4(f[COLUMN_ID]) + FIVE_ZEROS
  }

  /** The body of a report as bytes, the first one being the report type. */
  function ReportBytes(repairType: nat, result: nat, isolation: nat, f: seq<nat>): (bs: seq<nat>)
    requires |f| == FAULT_FIELD_NUM
    ensures |bs| == 34
  {
    StartBytes(repairType, result, isolation, f) + EndBytes(f)
  }

  predicate ReportFits(repairType: nat, result: nat, isolation: nat, f: seq<nat>) {
    && repairType < 256 && result < 256 && isolation < 256
    && |f| == FAULT_FIELD_NUM && AllBytes(PlaceBytes(f))
    && f[ROW_ID] < 0x1_0000_0000 && f[COLUMN_ID] < 0x1_0000_0000
  }

  lemma FormatHeadIsBytes(repairType: nat, result: nat, isolation: nat)
    requires repairType < 256 && result < 256 && isolation < 256
    ensures FormatHead(repairType, result, isolation) == HexBytes([0, repairType, result, isolation])
  {
    HexPadByte(repairType);
    HexPadByte(result);
    HexPadByte(isolation);
    HexBytes4(0, repairType, result, isolation);
    assert HexPair(0) == "00";
  }

  lemma HexBytes9(b: seq<nat>)
    requires |b| == 9 && AllBytes(b)
    ensures HexBytes(b) == HexPair(b[0]) + HexPair(b[1]) + HexPair(b[2]) + HexPair(b[3]) +
                           (HexPair(b[4]) + HexPair(b[5]) + HexPair(b[6]) + HexPair(b[7])) + HexPair(b[8])
  {
    hide HexPair;
    HexBytes4(b[0], b[1], b[2], b[3]);
    HexBytes4(b[4], b[5], b[6], b[7]);
    var b1, b2, b3 := [b[0], b[1], b[2], b[3]], [b[4], b[5], b[6], b[7]], [b[8]];
    assert b == b1 + b2 + b3;
    HexBytesConcat(b1 + b2, b3);
    HexBytesConcat(b1, b2);
    assert b3[1..] == [];
  }

  lemma FormatPlaceIsBytes(f: seq<nat>)
    requires |f| == FAULT_FIELD_NUM && AllBytes(PlaceBytes(f))
    ensures FormatPlace(f) == HexBytes(PlaceBytes(f))
  {
    hide HexPad, HexBytes, DigitChar;
    var b := PlaceBytes(f);
    HexBytes9(b);
    PrintedByte(b, 0); PrintedByte(b, 1); PrintedByte(b, 2); PrintedByte(b, 4);
    PrintedByte(b, 6); PrintedByte(b, 7); PrintedByte(b, 8);
    assert HexPair(0) == "00";
  }

  lemma PrintedByte(b: seq<nat>, i: nat)
    requires AllBytes(b) && i < |b|
    ensures HexPad(b[i], 2) == HexPair(b[i])
  {
    HexPadByte(b[i]);
  }

  /** t prints the bytes of bs. */
  predicate Prints(t: string, bs: seq<nat>) { AllBytes(bs) && t == HexBytes(bs) }

  lemma PrintsBoth(ta: string, a: seq<nat>, tb: string, b: seq<nat>)
    requires Prints(ta, a) && Prints(tb, b)
    ensures Prints(ta + tb, a + b)
  {
    HexBytesConcat(a, b);
  }

  lemma PrintsThree(ta: string, a: seq<nat>, tb: string, b: seq<nat>, tc: string, c: seq<nat>)
    requires Prints(ta, a) && Prints(tb, b) && Prints(tc, c)
    ensures Prints(ta + tb + tc, a + b + c)
  {
    PrintsBoth(ta, a, tb, b);
    PrintsBoth(ta + tb, a + b, tc, c);
  }

  lemma ZeroGroups()
    ensures HexBytes(EIGHT_ZEROS) == Zeros(16) && HexBytes(FIVE_ZEROS) == Zeros(10)
  {
    assert HexPair(0) == "00";
    HexBytes4(0, 0, 0, 0);
    HexBytesConcat([0, 0, 0, 0], [0, 0, 0, 0]);
    HexBytesConcat([0, 0, 0, 0], [0]);
    assert EIGHT_ZEROS == [0, 0, 0, 0] + [0, 0, 0, 0] && FIVE_ZEROS == [0, 0, 0, 0] + [0];
  }

  lemma FormatStartIsBytes(repairType: nat, result: nat, isolation: nat, f: seq<nat>)
    requires ReportFits(repairType, result, isolation, f)
    ensures Prints(FormatStart(repairType, result, isolation, f), StartBytes(repairType, result, isolation, f))
  {
    hide FormatHead, FormatPlace, HexBytes, Zeros;
    FormatHeadIsBytes(repairType, result, isolation);
    FormatPlaceIsBytes(f);
    ZeroGroups();
    PrintsThree(FormatHead(repairType, result, isolation), [0, repairType, result, isolation],
                Zeros(16), EIGHT_ZEROS, FormatPlace(f), PlaceBytes(f));
  }

  lemma FormatEndIsBytes(f: seq<nat>)
    requires |f| == FAULT_FIELD_NUM && f[ROW_ID] < 0x1_0000_0000 && f[COLUMN_ID] < 0x1_0000_0000
    ensures Prints(FormatEnd(f), EndBytes(f))
  {
    hide HexPad, HexBytes, BigEndian4, Zeros;
    ZeroGroups();
    HexPadWord(f[ROW_ID]);
    HexPadWord(f[COLUMN_ID]);
    PrintsThree(HexPad(f[ROW_ID], 8), BigEndian4(f[ROW_ID]), HexPad(f[COLUMN_ID], 8), BigEndian4(f[COLUMN_ID]),
                Zeros(10), FIVE_ZEROS);
  }

  /** The printf format prints exactly the report bytes. */
  lemma FormatIsBytes(repairType: nat, result: nat, isolation: nat, f: seq<nat>)
    requires ReportFits(repairType, result, isolation, f)
    ensures AllBytes(ReportBytes(repairType, result, isolation, f))
    ensures FormatReport(repairType, result, isolation, f) ==
            "REP" + HexBytes(ReportBytes(repairType, result, isolation, f))
  {
    FormatStartIsBytes(repairType, result, isolation, f);
    FormatEndIsBytes(f);
    PrintsBoth(FormatStart(repairType, result, isolation, f), StartBytes(repairType, result, isolation, f),
               FormatEnd(f), EndBytes(f));
  }

  /** The bytes after netfn and command that the BMC is sent for a report. */
  function CommandBytes(repairType: nat, result: nat, isolation: nat, f: seq<nat>): (bs: seq<nat>)
    requires |f| == FAULT_FIELD_NUM
    ensures |bs| == 33
  {
    [repairType + TYPE_OFFSET, result, isolation] + EIGHT_ZEROS + PlaceBytes(f) +
    LittleEndian4(f[ROW_ID]) + LittleEndian4(f[COLUMN_ID]) + FIVE_ZEROS
  }

  lemma BodyRest(bs: seq<nat>)
    requires AllBytes(bs) && |bs| == 34
    ensures OtherInts(HexBytes(bs)) == Some(bs[4..])
  {
    hide HexBytes, HexInts;
    var data := HexBytes(bs);
    assert bs == bs[..4] + bs[4..];
    HexBytesConcat(bs[..4], bs[4..]);
    assert Slice(data, 8, 8 + |data|) == HexBytes(bs[4..]);
    BytesAreInts(bs[4..], 30);
    assert bs[4..][..30] == bs[4..];
  }

  predicate HeadAccepted(t: nat, r: nat, i: nat) {
    t <= 3 && r in RESULT_CODES && i in {ROW_FAULT, SINGLE_ADDR_FAULT}
  }

  lemma HeadChecked(t: nat, r: nat, i: nat)
    ensures CheckedHead(Some(t), Some(r), Some(i)) ==
            if HeadAccepted(t, r, i) then Some([t + TYPE_OFFSET, r, i]) else None
  {
  }

  lemma HeadOf(bs: seq<nat>)
    requires AllBytes(bs) && |bs| == 34
    ensures Head(HexBytes(bs)) ==
            if HeadAccepted(bs[1], bs[2], bs[3]) then Some([bs[1] + TYPE_OFFSET, bs[2], bs[3]]) else None
  {
    ByteAtIsInt(bs, 1);
    ByteAtIsInt(bs, 2);
    ByteAtIsInt(bs, 3);
    HeadChecked(bs[1], bs[2], bs[3]);
  }

  /** What the parser makes of a body of 34 bytes. */
  lemma ParseBytes(bs: seq<nat>)
    requires AllBytes(bs) && |bs| == 34
    ensures ParseReport(HexBytes(bs)) ==
            if HeadAccepted(bs[1], bs[2], bs[3])
            then ReverseRowAndColumn(COMMAND_HEAD + Tokens([bs[1] + TYPE_OFFSET, bs[2], bs[3]] + bs[4..]))
            else None
  {
    HeadOf(bs);
    BodyRest(bs);
    CommandOf(Head(HexBytes(bs)), OtherInts(HexBytes(bs)), bs[4..]);
  }

  lemma CommandOf(checked: Option<seq<int>>, others: Option<seq<int>>, ints: seq<int>)
    requires others == Some(ints)
    ensures Command(checked, others) ==
            if checked.Some? then ReverseRowAndColumn(COMMAND_HEAD + Tokens(checked.value + ints)) else None
  {
  }

  lemma ReverseTwice<T>(a: seq<T>, d: seq<T>)
    requires |a| == |d| == 43 && a[..30] == d[..30] && a[38..] == d[38..]
    requires a[30] == d[33] && a[31] == d[32] && a[32] == d[31] && a[33] == d[30]
    requires a[34] == d[37] && a[35] == d[36] && a[36] == d[35] && a[37] == d[34]
    ensures ReverseFour(a, SEND_ROW).Some?
    ensures ReverseFour(ReverseFour(a, SEND_ROW).value, SEND_COL) == Some(d)
  {
    var c := ReverseFour(ReverseFour(a, SEND_ROW).value, SEND_COL).value;
    forall i | 0 <= i < 43 ensures c[i] == d[i] {
      if i < 30 { assert a[..30][i] == d[..30][i]; }
      if i >= 38 { assert a[38..][i - 38] == d[38..][i - 38]; }
    }
    assert c == d;
  }

  /** Reversing the two slices of the command turns the big-endian row and column into little-endian ones. */
  lemma ReverseTokens(head: seq<string>, before: seq<int>, row: nat, col: nat, after: seq<int>)
    requires |head| == 10 && |before| == 20 && |after| == 5
    ensures ReverseRowAndColumn(head + Tokens(before + BigEndian4(row) + BigEndian4(col) + after)) ==
            Some(head + Tokens(before + LittleEndian4(row) + LittleEndian4(col) + after))
  {
    hide FormatByte, ReverseFour;
    var r, c := BigEndian4(row), BigEndian4(col);
    var sent := before + r + c + after;
    var want := before + LittleEndian4(row) + LittleEndian4(col) + after;
    TokensAt(head, before, r, c, after);
    TokensAt(head, before, LittleEndian4(row), LittleEndian4(col), after);
    ReverseTwice(head + Tokens(sent), head + Tokens(want));
  }

  lemma TokensAt(head: seq<string>, before: seq<int>, row: seq<int>, col: seq<int>, after: seq<int>)
    requires |head| == 10 && |before| == 20 && |row| == 4 && |col| == 4 && |after| == 5
    ensures var cmd := head + Tokens(before + row + col + after);
            && |cmd| == 43 && cmd[..30] == head + Tokens(before) && cmd[38..] == Tokens(after)
            && cmd[30] == FormatByte(row[0]) && cmd[31] == FormatByte(row[1])
            && cmd[32] == FormatByte(row[2]) && cmd[33] == FormatByte(row[3])
            && cmd[34] == FormatByte(col[0]) && cmd[35] == FormatByte(col[1])
            && cmd[36] == FormatByte(col[2]) && cmd[37] == FormatByte(col[3])
  {
    hide FormatByte;
    TokensConcat(before + row + col, after);
    TokensConcat(before + row, col);
    TokensConcat(before, row);
  }

  /** What the service makes of the printed report with the given numbers. */
  lemma ReceiveFormat(repairType: nat, result: nat, isolation: nat, f: seq<nat>)
    requires ReportFits(repairType, result, isolation, f)
    ensures |FormatReport(repairType, result, isolation, f)| == 71
    ensures Receive(FormatReport(repairType, result, isolation, f)) ==
            if HeadAccepted(repairType, result, isolation)
            then Some(COMMAND_HEAD + Tokens(CommandBytes(repairType, result, isolation, f))) else None
  {
    hide FormatReport, Receive, ParseReport, HexBytes, Tokens, ReverseRowAndColumn, BigEndian4, LittleEndian4;
    var bs := ReportBytes(repairType, result, isolation, f);
    FormatIsBytes(repairType, result, isolation, f);
    HeaderRemoved(FormatReport(repairType, result, isolation, f), bs);
    ParseBytes(bs);
    if HeadAccepted(repairType, result, isolation) {
      var before := [repairType + TYPE_OFFSET, result, isolation] + EIGHT_ZEROS + PlaceBytes(f);
      assert [bs[1] + TYPE_OFFSET, bs[2], bs[3]] + bs[4..] ==
             before + BigEndian4(f[ROW_ID]) + BigEndian4(f[COLUMN_ID]) + FIVE_ZEROS;
      ReverseTokens(COMMAND_HEAD, before, f[ROW_ID], f[COLUMN_ID], FIVE_ZEROS);
    }
  }

  lemma HeaderRemoved(message: string, bs: seq<nat>)
    requires AllBytes(bs) && |bs| == 34 && bs[0] == 0 && message == "REP" + HexBytes(bs)
    ensures Receive(message) == ParseReport(HexBytes(bs))
  {
    hide HexBytes, HexCharToInt, ParseReport;
    assert Slice(message, 0, RECEIVE_LEN) == message && Slice(message, 0, 3) == "REP";
    assert Slice(message, 3, 3 + |message|) == HexBytes(bs);
    ByteAtIsInt(bs, 0);
  }

  lemma FaultFieldsPrintable(addr: nat)
    requires addr < 0x1_0000_0000_0000_0000
    ensures AllBytes(PlaceBytes(FaultFields(addr)))
    ensures FaultFields(addr)[ROW_ID] < 0x1_0000_0000 && FaultFields(addr)[COLUMN_ID] < 0x1_0000_0000
  {
    hide FaultFields, Pow2, Encode, TotalLength;
    FaultAddressLossless(addr);
    SmallPowers();
    var f := FaultFields(addr);
    assert f[PROCESSOR_ID] < Pow2(2) && f[DIE_ID] < Pow2(1) && f[STACK_ID] < Pow2(3) && f[SID] < Pow2(3);
    assert f[CHANNEL_ID] < Pow2(8) && f[BANKGROUP_ID] < Pow2(3) && f[BANK_ID] < Pow2(3);
    assert f[ROW_ID] < Pow2(17) && f[COLUMN_ID] < Pow2(10);
  }

  lemma SmallPowers()
    ensures Pow2(1) == 2 && Pow2(2) == 4 && Pow2(3) == 8 && Pow2(8) == 256 && Pow2(10) == 1024 && Pow2(17) == 131072
  {
    Pow2Add(8, 2);
    Pow2Add(8, 8);
    Pow2Add(16, 1);
  }

  /** Of the messages for validated sections the service accepts exactly those with a result code it knows
      and a request type that is ACLS or SPPR; the command then carries every field at its place. */
  lemma NoticeReceived(e: Section, result: nat)
    requires Readable(e) && RepairValidate(e) && result < 256
    ensures var (repairType, isolation) := TypeCodes(e);
            Receive(NoticeText(e, result)) ==
            if (IsAcls(e) || IsSppr(e)) && result in RESULT_CODES
            then Some(COMMAND_HEAD + Tokens(CommandBytes(repairType, result, isolation, FaultFields(FaultAddress(e)))))
            else None
  {
    hide FormatReport, Receive, Tokens, CommandBytes, FaultFields;
    var (repairType, isolation) := TypeCodes(e);
    FaultFieldsPrintable(FaultAddress(e));
    ReceiveFormat(repairType, result, isolation, FaultFields(FaultAddress(e)));
  }

  /** A token of the command read as a number. */
  function SentByte(token: string): Option<nat> {
    if |token| < 2 || token[..2] != "0X" then None else HexValue(token[2..])
  }

  lemma TokenRoundTrip(b: nat)
    requires b < 256
    ensures SentByte(FormatByte(b)) == Some(b)
  {
    var t := FormatByte(b);
    if b < 16 {
      assert Zeros(1) == "0" && t == "0X0" + [UpperDigitChar(b)];
    } else {
      assert UpperHexDigits(b / 16) == [UpperDigitChar(b / 16)];
      assert t == "0X" + [UpperDigitChar(b / 16), UpperDigitChar(b % 16)];
    }
    TwoDigits(t[2..], b);
  }

  lemma TwoDigits(s: string, b: nat)
    requires b < 256 && s == [UpperDigitChar(b / 16), UpperDigitChar(b % 16)]
    ensures HexValue(s) == Some(b)
  {
    assert s[..1] == [s[0]];
    assert HexValue([s[0]]) == Some(b / 16);
  }

  function SentBytes(command: seq<string>, lo: nat, n: nat): Option<seq<nat>>
    requires lo + n <= |command|
  {
    if n == 0 then Some([])
    else
      match (SentBytes(command, lo, n - 1), SentByte(command[lo + n - 1]))
      case (Some(bs), Some(b)) => Some(bs + [b])
      case _ => None
  }

  lemma {:induction false} TokensSent(head: seq<string>, bs: seq<nat>, lo: nat, n: nat)
    requires AllBytes(bs) && lo + n <= |bs|
    ensures SentBytes(head + Tokens(bs), |head| + lo, n) == Some(bs[lo..lo + n])
  {
    hide FormatByte, SentByte;
    if n > 0 {
      TokensSent(head, bs, lo, n - 1);
      TokenRoundTrip(bs[lo + n - 1]);
      assert (head + Tokens(bs))[|head| + lo + n - 1] == FormatByte(bs[lo + n - 1]);
      assert bs[lo..lo + n] == bs[lo..lo + n - 1] + [bs[lo + n - 1]];
    } else {
      assert bs[lo..lo] == [];
    }
  }

  /** For every flat-mode request and every code the handler passes, the message is accepted; the bytes sent
      are the checked numbers, the fields of the fault address, and row and column as little-endian words. */
  lemma NoticeAccepted(e: Section, result: nat)
    requires FlatRequest(e) && result in RESULT_CODES
    ensures var (repairType, isolation) := TypeCodes(e);
            var f := FaultFields(FaultAddress(e));
            var command := Receive(NoticeText(e, result));
            && command.Some? && |command.value| == 43 && command.value[..10] == COMMAND_HEAD
            && SentBytes(command.value, 10, 3) == Some([repairType + TYPE_OFFSET, result, isolation])
            && SentBytes(command.value, 21, 9) == Some(PlaceBytes(f))
            && SentBytes(command.value, SEND_ROW, 4) == Some(LittleEndian4(f[ROW_ID]))
            && LittleEndianValue(LittleEndian4(f[ROW_ID])) == f[ROW_ID]
            && SentBytes(command.value, SEND_COL, 4) == Some(LittleEndian4(f[COLUMN_ID]))
            && LittleEndianValue(LittleEndian4(f[COLUMN_ID])) == f[COLUMN_ID]
  {
    hide Receive, NoticeText, Tokens, CommandBytes, FaultFields, FaultAddress, PlaceBytes, SentBytes;
    hide LittleEndian4, LittleEndianValue;
    var (repairType, isolation) := TypeCodes(e);
    var f := FaultFields(FaultAddress(e));
    NoticeReceived(e, result);
    FaultFieldsPrintable(FaultAddress(e));
    CommandSent(repairType, result, isolation, f);
    LittleEndian4Value(f[ROW_ID]);
    LittleEndian4Value(f[COLUMN_ID]);
  }

  lemma CommandSent(repairType: nat, result: nat, isolation: nat, f: seq<nat>)
    requires ReportFits(repairType, result, isolation, f) && repairType <= 3
    ensures var command := COMMAND_HEAD + Tokens(CommandBytes(repairType, result, isolation, f));
            && |command| == 43 && command[..10] == COMMAND_HEAD
            && SentBytes(command, 10, 3) == Some([repairType + TYPE_OFFSET, result, isolation])
            && SentBytes(command, 21, 9) == Some(PlaceBytes(f))
            && SentBytes(command, SEND_ROW, 4) == Some(LittleEndian4(f[ROW_ID]))
            && SentBytes(command, SEND_COL, 4) == Some(LittleEndian4(f[COLUMN_ID]))
  {
    hide Tokens, SentBytes, LittleEndian4, PlaceBytes;
    var bs := CommandBytes(repairType, result, isolation, f);
    PiecesOfCommand([repairType + TYPE_OFFSET, result, isolation], EIGHT_ZEROS, PlaceBytes(f),
                    LittleEndian4(f[ROW_ID]), LittleEndian4(f[COLUMN_ID]), FIVE_ZEROS);
    TokensSent(COMMAND_HEAD, bs, 0, 3);
    TokensSent(COMMAND_HEAD, bs, 11, 9);
    TokensSent(COMMAND_HEAD, bs, 20, 4);
    TokensSent(COMMAND_HEAD, bs, 24, 4);
  }

  lemma PiecesOfCommand<T>(a: seq<T>, b: seq<T>, c: seq<T>, d: seq<T>, e: seq<T>, f: seq<T>)
    requires |a| == 3 && |b| == 8 && |c| == 9 && |d| == 4 && |e| == 4 && |f| == 5
    ensures var s := a + b + c + d + e + f;
            |s| == 33 && s[0..3] == a && s[11..20] == c && s[20..24] == d && s[24..28] == e
  {
  }
}
