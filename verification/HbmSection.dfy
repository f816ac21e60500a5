/** The hardware error section of an HBM repair request and the fields of its 64-bit fault address. */
module HbmSection {
  import opened Numerals

  // ----- the fault address -----

  const FIELD_LENGTHS: seq<nat> := [2, 1, 3, 3, 8, 3, 3, 17, 10, 2, 2, 2, 8]
  const FAULT_FIELD_NUM := 13
  const PROCESSOR_ID := 0
  const DIE_ID := 1
  const STACK_ID := 2
  const SID := 3
  const CHANNEL_ID := 4
  const BANKGROUP_ID := 5
  const BANK_ID := 6
  const ROW_ID := 7
  const COLUMN_ID := 8

  function TotalLength(lens: seq<nat>): nat {
    if lens == [] then 0 else lens[0] + TotalLength(lens[1..])
  }

  /** addr & ((1 << len) - 1), bit by bit. */
  function Low(addr: nat, len: nat): (r: nat)
    ensures r < Pow2(len)
  {
    if len == 0 then 0 else addr % 2 + 2 * Low(addr / 2, len - 1)
  }

  /** addr >> len. */
  function High(addr: nat, len: nat): nat {
    if len == 0 then addr else High(addr / 2, len - 1)
  }

  lemma {:induction false} HighLow(addr: nat, len: nat)
    ensures Low(addr, len) + Pow2(len) * High(addr, len) == addr
  {
    if len == 0 {
    } else {
      HighLow(addr / 2, len - 1);
      DoubleProduct(Pow2(len - 1), High(addr, len), Pow2(len));
    }
  }

  lemma {:induction false} HighBelow(addr: nat, len: nat, rest: nat)
    requires addr < Pow2(len + rest)
    ensures High(addr, len) < Pow2(rest)
  {
    if len == 0 {
    } else {
      HighBelow(addr / 2, len - 1, rest);
    }
  }

  lemma HalfOfSum(low: nat, k: nat)
    ensures (low + 2 * k) % 2 == low % 2 && (low + 2 * k) / 2 == low / 2 + k
  {
  }

  lemma {:induction false} SplitSum(low: nat, high: nat, len: nat)
    requires low < Pow2(len)
    ensures Low(low + Pow2(len) * high, len) == low
    ensures High(low + Pow2(len) * high, len) == high
  {
    if len == 0 {
    } else {
      var k := Pow2(len - 1) * high;
      DoubleProduct(Pow2(len - 1), high, Pow2(len));
      HalfOfSum(low, k);
      SplitSum(low / 2, high, len - 1);
    }
  }

  /** The fields from the lowest bits up, the last one taking all that is left. */
  function Decode(addr: nat, lens: seq<nat>): (fields: seq<nat>)
    requires lens != []
    ensures |fields| == |lens|
    decreases lens
  {
    if |lens| == 1 then [addr]
    else [Low(addr, lens[0])] + Decode(High(addr, lens[0]), lens[1..])
  }

  /** Shifting the fields back together. */
  function Encode(fields: seq<nat>, lens: seq<nat>): nat
    requires |fields| == |lens| >= 1
  {
    if |lens| == 1 then fields[0]
    else fields[0] + Pow2(lens[0]) * Encode(fields[1..], lens[1..])
  }

  predicate FieldsFit(fields: seq<nat>, lens: seq<nat>)
    requires |fields| == |lens|
  {
    forall i :: 0 <= i < |lens| ==> fields[i] < Pow2(lens[i])
  }

  lemma {:induction false} EncodeDecode(addr: nat, lens: seq<nat>)
    requires lens != []
    ensures Encode(Decode(addr, lens), lens) == addr
    decreases lens
  {
    if |lens| == 1 {
    } else {
      HighLow(addr, lens[0]);
      EncodeDecode(High(addr, lens[0]), lens[1..]);
    }
  }

  lemma {:induction false} DecodeFits(addr: nat, lens: seq<nat>)
    requires lens != [] && addr < Pow2(TotalLength(lens))
    ensures FieldsFit(Decode(addr, lens), lens)
    decreases lens
  {
    if |lens| == 1 {
      assert lens[1..] == [];
    } else {
      HighBelow(addr, lens[0], TotalLength(lens[1..]));
      DecodeFits(High(addr, lens[0]), lens[1..]);
    }
  }

  lemma {:induction false} DecodeEncode(fields: seq<nat>, lens: seq<nat>)
    requires |fields| == |lens| >= 1 && FieldsFit(fields, lens)
    ensures Decode(Encode(fields, lens), lens) == fields
  {
    if |lens| == 1 {
    } else {
      SplitSum(fields[0], Encode(fields[1..], lens[1..]), lens[0]);
      DecodeEncode(fields[1..], lens[1..]);
    }
  }

  lemma LowHighMean(addr: nat, len: nat)
    ensures Low(addr, len) == addr % Pow2(len) && High(addr, len) == addr / Pow2(len)
  {
    HighLow(addr, len);
    DivUnique(addr, Pow2(len), High(addr, len), Low(addr, len));
  }

  lemma DivTwice(n: nat, a: nat, b: nat, ab: nat)
    requires a > 0 && b > 0 && ab == a * b
    ensures ab > 0 && n / ab == n / a / b
  {
    ProductPositive(a, b);
    var q := n / a;
    QuotientParts(n, a);
    QuotientParts(q, b);
    Nested(n, a, b, ab, q, n % a, q / b, q % b);
  }

  lemma QuotientParts(n: nat, d: nat)
    requires d > 0
    ensures n == d * (n / d) + n % d && n % d < d
  {
  }

  lemma Nested(n: nat, a: nat, b: nat, ab: nat, q: nat, r: nat, q': nat, r': nat)
    requires ab == a * b && n == a * q + r && r < a && q == b * q' + r' && r' < b
    ensures ab > 0 && n / ab == q'
  {
    Expand(a, b, q', r', r);
    RemainderBelow(a, b, r, r');
    var t := a * r' + r;
    assert n == ab * q' + t && t < ab;
    DivUnique(n, ab, q', t);
  }

  lemma Expand(a: nat, b: nat, q: nat, r: nat, s: nat)
    ensures a * (b * q + r) + s == (a * b) * q + (a * r + s)
  {
    assert a * (b * q + r) == a * (b * q) + a * r;
    assert a * (b * q) == (a * b) * q;
  }

  lemma ProductPositive(a: nat, b: nat)
    requires a > 0 && b > 0
    ensures a * b > 0
  {
  }

  lemma RemainderBelow(a: nat, b: nat, r: nat, r': nat)
    requires r < a && r' < b
    ensures a * r' + r < a * b && a * r' >= 0
  {
    assert a * (b - 1 - r') == a * b - a - a * r';
    ProductOfNaturals(a, b - 1 - r');
    ProductOfNaturals(a, r');
  }

  /** Field i is the part of the address that starts after the widths of the fields before it. */
  lemma {:induction false} DecodeAt(addr: nat, lens: seq<nat>, i: nat)
    requires i + 1 < |lens|
    ensures Decode(addr, lens)[i] == addr / Pow2(TotalLength(lens[..i])) % Pow2(lens[i])
    decreases lens
  {
    hide Low, High, Pow2;
    LowHighMean(addr, lens[0]);
    if i == 0 {
      assert lens[..0] == [];
      PowerOfNothing();
    } else {
      DecodeAt(High(addr, lens[0]), lens[1..], i - 1);
      assert lens[..i][1..] == lens[1..][..i - 1];
      Pow2Add(lens[0], TotalLength(lens[1..][..i - 1]));
      DivTwice(addr, Pow2(lens[0]), Pow2(TotalLength(lens[1..][..i - 1])), Pow2(TotalLength(lens[..i])));
    }
  }

  lemma PowerOfNothing()
    ensures Pow2(0) == 1 && forall n: nat :: n / 1 == n
  {
  }

  function FaultFields(addr: nat): (fields: seq<nat>)
    ensures |fields| == FAULT_FIELD_NUM
  {
    Decode(addr, FIELD_LENGTHS)
  }

  /** Decoding a 64-bit address loses nothing: every field is below two to its width, and the
      widths cover the 64 bits so that the fields give the address back. */
  lemma FaultAddressLossless(addr: nat)
    requires addr < 0x1_0000_0000_0000_0000
    ensures TotalLength(FIELD_LENGTHS) == 64
    ensures FieldsFit(FaultFields(addr), FIELD_LENGTHS)
    ensures Encode(FaultFields(addr), FIELD_LENGTHS) == addr
  {
    LengthsTotal();
    Pow2Of64();
    DecodeFits(addr, FIELD_LENGTHS);
    EncodeDecode(addr, FIELD_LENGTHS);
  }

  lemma LengthsTotal()
    ensures TotalLength(FIELD_LENGTHS) == 64
  {
    TotalFrom(13); TotalFrom(12); TotalFrom(11); TotalFrom(10); TotalFrom(9); TotalFrom(8); TotalFrom(7);
    TotalFrom(6); TotalFrom(5); TotalFrom(4); TotalFrom(3); TotalFrom(2); TotalFrom(1); TotalFrom(0);
    assert FIELD_LENGTHS[0..] == FIELD_LENGTHS;
  }

  lemma TotalFrom(i: nat)
    requires i <= FAULT_FIELD_NUM
    ensures TotalLength(FIELD_LENGTHS[i..]) ==
            if i == FAULT_FIELD_NUM then 0 else FIELD_LENGTHS[i] + TotalLength(FIELD_LENGTHS[i + 1..])
  {
    if i < FAULT_FIELD_NUM {
      assert FIELD_LENGTHS[i..][1..] == FIELD_LENGTHS[i + 1..];
    }
  }

  lemma Pow2Of64()
    ensures Pow2(64) == 0x1_0000_0000_0000_0000 && Pow2(32) == 0x1_0000_0000
  {
    assert Pow2(16) == 65536 by { assert Pow2(8) == 256; Pow2Add(8, 8); }
    assert Pow2(32) == 65536 * 65536 by { Pow2Add(16, 16); }
    Pow2Add(32, 32);
  }

  /** The cast to uint32_t. */
  function ToUint32(x: nat): nat { x % 0x1_0000_0000 }

  lemma CastKeeps(x: nat, len: nat)
    requires len <= 32 && x < Pow2(len)
    ensures ToUint32(x) == x
  {
    Pow2Of64();
    if len < 32 { Pow2Monotone(len, 32); }
  }

  /** The shifting loop over fields[], for a table of field lengths such as FIELD_LENGTHS; the
      casts to 32 bits lose nothing. */
  method ParseFaultAddrInfo(fields: array<nat>, faultAddr: nat, lens: seq<nat>)
    requires fields.Length == |lens| >= 1 && faultAddr < Pow2(TotalLength(lens))
    requires forall i :: 0 <= i < |lens| ==> lens[i] <= 32
    modifies fields
    ensures fields[..] == Decode(faultAddr, lens)
  {
    ghost var all := Decode(faultAddr, lens);
    DecodeFits(faultAddr, lens);
    var addr := faultAddr;
    var i := 0;
    assert lens[0..] == lens && all[0..] == all;
    while i < |lens| - 1
      invariant 0 <= i < |lens|
      invariant forall j :: 0 <= j < i ==> fields[j] == all[j]
      invariant Decode(addr, lens[i..]) == all[i..]
    {
      DecodeNext(addr, lens, all, i);
      CastKeeps(Low(addr, lens[i]), lens[i]);
      fields[i] := ToUint32(Low(addr, lens[i]));
      addr := High(addr, lens[i]);
      i := i + 1;
    }
    DecodeLast(addr, lens, all, i);
    CastKeeps(addr, lens[i]);
    fields[i] := ToUint32(addr);
    assert fields[..] == all;
  }

  lemma DecodeLast(addr: nat, lens: seq<nat>, all: seq<nat>, i: nat)
    requires |all| == |lens| && i + 1 == |lens| && Decode(addr, lens[i..]) == all[i..]
    ensures addr == all[i]
  {
    assert all[i..][0] == all[i];
  }

  lemma DecodeNext(addr: nat, lens: seq<nat>, all: seq<nat>, i: nat)
    requires |all| == |lens| && i + 1 < |lens| && Decode(addr, lens[i..]) == all[i..]
    ensures Low(addr, lens[i]) == all[i]
    ensures Decode(High(addr, lens[i]), lens[i + 1..]) == all[i + 1..]
  {
    assert lens[i..][1..] == lens[i + 1..] && all[i..][1..] == all[i + 1..];
  }

  // ----- the section -----

  const HBMC_MODULE_ID := 0x28
  const HBMC_SUBMOD_HBM_REPAIR := 6
  const HBM_ACLS_ADDR_NUM := 1
  const HBM_SPPR_ADDR_NUM := 16
  const HBM_ACLS_ARRAY_SIZE := 4 + 8 * HBM_ACLS_ADDR_NUM + 8
  const HBM_SPPR_ARRAY_SIZE := 4 + 8 * HBM_SPPR_ADDR_NUM + 8
  const HBM_CACHE_ARRAY_SIZE := 4 + 8
  const HBM_ADDL := 1
  const HBM_ADDH := 2

  predicate HasBit(x: nat, bit: nat) { x / Pow2(bit) % 2 == 1 }

  datatype Section = Section(valBits: nat, moduleId: nat, submoduleId: nat, regArraySize: nat, regs: seq<nat>)

  /** 32-bit registers; the request type is read before the array size is looked at, so one is always there. */
  predicate Readable(e: Section) {
    && |e.regs| >= 1 && 4 * |e.regs| >= e.regArraySize
    && forall i :: 0 <= i < |e.regs| ==> e.regs[i] < 0x1_0000_0000
  }

  predicate IsAcls(e: Section)
    requires Readable(e)
  {
    HasBit(e.regs[0], 0) || HasBit(e.regs[0], 1)
  }

  predicate IsSppr(e: Section)
    requires Readable(e)
  {
    HasBit(e.regs[0], 2) || HasBit(e.regs[0], 3)
  }

  predicate IsCacheMode(e: Section)
    requires Readable(e)
  {
    HasBit(e.regs[0], 4) || HasBit(e.regs[0], 5) || HasBit(e.regs[0], 6) || HasBit(e.regs[0], 7)
  }

  predicate RepairValidate(e: Section)
    requires Readable(e)
  {
    && HasBit(e.valBits, 5) && HasBit(e.valBits, 6) && HasBit(e.valBits, 12)
    && e.moduleId == HBMC_MODULE_ID && e.submoduleId == HBMC_SUBMOD_HBM_REPAIR
    && ((IsAcls(e) && e.regArraySize == HBM_ACLS_ARRAY_SIZE) ||
        (IsSppr(e) && e.regArraySize == HBM_SPPR_ARRAY_SIZE) ||
        (IsCacheMode(e) && e.regArraySize == HBM_CACHE_ARRAY_SIZE))
  }

  predicate FlatModeValidate(e: Section)
    requires Readable(e)
  {
    !IsCacheMode(e)
  }

  /** A request the flat-mode handler gets. */
  predicate FlatRequest(e: Section) { Readable(e) && RepairValidate(e) && FlatModeValidate(e) }

  /** Register i of the array, inside the size the section declares. */
  function Reg(e: Section, i: nat): (r: nat)
    requires Readable(e) && i < e.regArraySize / 4
    ensures r < 0x1_0000_0000
  {
    e.regs[i]
  }

  /** The pair of registers that holds the address of the k-th page. */
  function PageAddress(e: Section, k: nat): nat
    requires Readable(e) && 2 * k + HBM_ADDH < e.regArraySize / 4
  {
    Reg(e, 2 * k + HBM_ADDH) * 0x1_0000_0000 + Reg(e, 2 * k + HBM_ADDL)
  }

  /** The fault address is in the last two registers. */
  function FaultAddress(e: Section): (a: nat)
    requires Readable(e) && e.regArraySize >= 8
    ensures a < 0x1_0000_0000_0000_0000
  {
    var n := e.regArraySize / 4;
    Reg(e, n - 1) * 0x1_0000_0000 + Reg(e, n - 2)
  }

  /** Every register the handlers of a validated request read is inside the declared array: the fault
      address for all three sizes, the first page for a flat request, all sixteen for one that is not ACLS. */
  lemma RegistersInBounds(e: Section)
    requires Readable(e) && RepairValidate(e)
    ensures e.regArraySize % 4 == 0 && e.regArraySize / 4 >= 2
    ensures FlatModeValidate(e) ==> HBM_ADDH < e.regArraySize / 4
    ensures FlatModeValidate(e) && !IsAcls(e) ==>
              forall k: nat :: k < HBM_SPPR_ADDR_NUM ==> 2 * k + HBM_ADDH < e.regArraySize / 4
    ensures FlatModeValidate(e) ==> IsAcls(e) || IsSppr(e)
  {
  }

  lemma TwoBits(x: nat)
    ensures x % 4 != 0 <==> x % 2 == 1 || x / 2 % 2 == 1
  {
  }

  lemma HalvesOfQuotients(x: nat)
    ensures x / 4 / 2 == x / 8 && x / 16 / 2 == x / 32 && x / 64 / 2 == x / 128
  {
  }

  lemma LowBits(x: nat)
    ensures HasBit(x, 0) <==> x % 2 == 1
    ensures HasBit(x, 1) <==> x / 2 % 2 == 1
    ensures HasBit(x, 2) <==> x / 4 % 2 == 1
    ensures HasBit(x, 3) <==> x / 8 % 2 == 1
    ensures HasBit(x, 4) <==> x / 16 % 2 == 1
    ensures HasBit(x, 5) <==> x / 32 % 2 == 1
    ensures HasBit(x, 6) <==> x / 64 % 2 == 1
    ensures HasBit(x, 7) <==> x / 128 % 2 == 1
    ensures HasBit(x, 12) <==> x / 4096 % 2 == 1
  {
    TwoTo12();
    hide Pow2;
  }

  /** The masks: request types are bits 0 and 1, 2 and 3, and 4 to 7 of register 0; the fields a request must have set are
      bits 5, 6 and 12. */
  lemma MasksMean(e: Section)
    requires Readable(e)
    ensures var x := e.regs[0];
            && (IsAcls(e) <==> x % 4 != 0) && (IsSppr(e) <==> x / 4 % 4 != 0)
            && (IsCacheMode(e) <==> x / 16 % 4 != 0 || x / 64 % 4 != 0)
    ensures RepairValidate(e) <==>
              && e.valBits / 32 % 2 == 1 && e.valBits / 64 % 2 == 1 && e.valBits / 4096 % 2 == 1
              && e.moduleId == 0x28 && e.submoduleId == 6
              && ((e.regs[0] % 4 != 0 && e.regArraySize == 20) || (e.regs[0] / 4 % 4 != 0 && e.regArraySize == 140) ||
                  ((e.regs[0] / 16 % 4 != 0 || e.regs[0] / 64 % 4 != 0) && e.regArraySize == 12))
  {
    var x := e.regs[0];
    LowBits(x);
    LowBits(e.valBits);
    hide HasBit;
    HalvesOfQuotients(x);
    TwoBits(x);
    TwoBits(x / 4);
    TwoBits(x / 16);
    TwoBits(x / 64);
  }

  /** Such requests exist, of both kinds. */
  lemma RequestsExist()
    ensures exists e: Section :: FlatRequest(e) && IsAcls(e)
    ensures exists e: Section :: FlatRequest(e) && !IsAcls(e)
  {
    TwoTo12();
    var acls := Section(4192, 0x28, 6, 20, [1, 0, 0, 0, 0]);
    assert FlatRequest(acls) && IsAcls(acls);
    var sppr := Section(4192, 0x28, 6, 140, seq(35, _ => 4));
    assert FlatRequest(sppr) && !IsAcls(sppr);
  }

  lemma TwoTo12()
    ensures Pow2(0) == 1 && Pow2(1) == 2 && Pow2(2) == 4 && Pow2(3) == 8 && Pow2(4) == 16 && Pow2(5) == 32
    ensures Pow2(6) == 64 && Pow2(7) == 128 && Pow2(12) == 4096
  {
    Pow2Add(6, 6);
  }
}
