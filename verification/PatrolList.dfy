/** The list of faulty cores of a CPU patrol: sorted insertion in a fixed array, and the C parser of core ranges. */
module PatrolList {
  import opened Numerals
  import opened CpuList

  const MAX_CPU_CORES: nat := 4096

  // ----- the list -----

  /** Sorted insertion without duplicates. */
  function SortedInsert(s: seq<nat>, core: nat): (r: seq<nat>)
    ensures |s| <= |r| <= |s| + 1
  {
    if s == [] then [core]
    else if core == s[0] then s
    else if core < s[0] then [core] + s
    else [s[0]] + SortedInsert(s[1..], core)
  }

  /** Core 0 is never listed, negative ids are refused, and a full list stays as it is. */
  function Insert(s: seq<nat>, core: int): (r: seq<nat>)
    ensures |s| <= MAX_CPU_CORES ==> |r| <= MAX_CPU_CORES
  {
    if core <= 0 || |s| >= MAX_CPU_CORES then s else SortedInsert(s, core)
  }

  ghost predicate CoreOrder(s: seq<nat>) { StrictlyAscending(s) && 0 !in s && |s| <= MAX_CPU_CORES }

  lemma TailAbove(s: seq<nat>)
    requires s != [] && StrictlyAscending(s)
    ensures StrictlyAscending(s[1..]) && forall x :: x in s[1..] ==> s[0] < x
  {
  }

  lemma ConsAscending(x: nat, t: seq<nat>)
    requires StrictlyAscending(t) && forall y :: y in t ==> x < y
    ensures StrictlyAscending([x] + t)
  {
    assert forall i :: 0 <= i < |t| ==> t[i] in t;
  }

  lemma {:induction false} SortedInsertKeeps(s: seq<nat>, core: nat)
    requires StrictlyAscending(s)
    ensures StrictlyAscending(SortedInsert(s, core))
    ensures forall x :: x in SortedInsert(s, core) <==> x in s || x == core
  {
    if s == [] {
    } else {
      TailAbove(s);
      assert s == [s[0]] + s[1..];
      if core > s[0] {
        SortedInsertKeeps(s[1..], core);
        hide StrictlyAscending;
        ConsAscending(s[0], SortedInsert(s[1..], core));
      } else if core < s[0] {
        hide StrictlyAscending;
        ConsAscending(core, s);
      }
    }
  }

  /** Insertion keeps the list strictly ascending, free of core 0 and within its capacity; a positive core is in
      the list afterwards whenever there was room, and nothing else changes. */
  lemma InsertKeepsOrder(s: seq<nat>, core: int)
    requires CoreOrder(s)
    ensures CoreOrder(Insert(s, core))
    ensures core > 0 && |s| < MAX_CPU_CORES ==> forall x: nat :: x in Insert(s, core) <==> x in s || x == core
    ensures core <= 0 || |s| == MAX_CPU_CORES ==> Insert(s, core) == s
  {
    if core > 0 { SortedInsertKeeps(s, core); }
  }

  /** Where the loop of the program puts the core. */
  lemma {:induction false} InsertPlace(s: seq<nat>, core: nat, i: nat)
    requires i <= |s| && (forall k :: 0 <= k < i ==> s[k] < core)
    ensures i < |s| && s[i] == core ==> SortedInsert(s, core) == s
    ensures i == |s| || s[i] > core ==> SortedInsert(s, core) == s[..i] + [core] + s[i..]
  {
    if i == 0 {
    } else {
      InsertPlace(s[1..], core, i - 1);
      assert s == [s[0]] + s[1..];
      assert s[..i] == [s[0]] + s[1..][..i - 1] && s[1..][i - 1..] == s[i..];
    }
  }

  function InsertAll(s: seq<nat>, ids: seq<nat>): seq<nat> {
    if ids == [] then s else Insert(InsertAll(s, ids[..|ids| - 1]), ids[|ids| - 1])
  }

  lemma {:induction false} InsertAllConcat(s: seq<nat>, a: seq<nat>, b: seq<nat>)
    ensures InsertAll(s, a + b) == InsertAll(InsertAll(s, a), b)
  {
    hide Insert;
    if b == [] {
      assert a + b == a;
    } else {
      assert (a + b)[..|a + b| - 1] == a + b[..|b| - 1];
      InsertAllConcat(s, a, b[..|b| - 1]);
    }
  }

  // ----- strtok and strtol -----

  function SkipSep(s: string, sep: char): (t: string)
    ensures |t| <= |s| && (t != [] ==> t[0] != sep)
  {
    if s != [] && s[0] == sep then SkipSep(s[1..], sep) else s
  }

  function TokenLength(s: string, sep: char): (n: nat)
    ensures n <= |s| && sep !in s[..n] && (n < |s| ==> s[n] == sep)
  {
    if s == [] || s[0] == sep then 0 else 1 + TokenLength(s[1..], sep)
  }

  /** strtok_r: the next token and what is left in the buffer. */
  function Strtok(s: string, sep: char): (r: Option<(string, string)>)
    ensures r.Some? ==> |r.value.1| < |s|
  {
    var t := SkipSep(s, sep);
    if t == [] then None
    else
      var n := TokenLength(t, sep);
      Some((t[..n], if n < |t| then t[n + 1..] else []))
  }

  function Tokens(s: string, sep: char): seq<string>
    decreases |s|
  {
    match Strtok(s, sep)
    case None => []
    case Some((token, rest)) => [token] + Tokens(rest, sep)
  }

  function NonEmpty(parts: seq<string>): seq<string> {
    if parts == [] then []
    else (if parts[0] == [] then [] else [parts[0]]) + NonEmpty(parts[1..])
  }

  lemma {:induction false} SplitFirst(a: string, b: string, sep: char)
    requires sep !in a
    ensures Split(a + [sep] + b, sep) == [a] + Split(b, sep)
    decreases |b|
  {
    hide Split;
    var s := a + [sep] + b;
    if b == [] {
      assert s == a + [sep];
      SplitNone(a, sep);
      SplitNone(b, sep);
      SplitStep(a, sep, sep);
    } else {
      var init, c := b[..|b| - 1], b[|b| - 1];
      assert s == (a + [sep] + init) + [c] && b == init + [c];
      SplitFirst(a, init, sep);
      SplitStep(a + [sep] + init, c, sep);
      SplitStep(init, c, sep);
    }
  }

  lemma StrtokStep(s: string, sep: char)
    requires s != []
    ensures var n := TokenLength(s, sep);
            Strtok(s, sep) ==
            if s[0] == sep then Strtok(s[1..], sep) else Some((s[..n], if n < |s| then s[n + 1..] else []))
  {
  }

  lemma NonEmptyNext(part: string, parts: seq<string>)
    ensures NonEmpty([part] + parts) == (if part == [] then [] else [part]) + NonEmpty(parts)
  {
  }

  /** The tokens of strtok_r are the pieces between separators that are not empty. */
  lemma {:induction false} TokensAreSplit(s: string, sep: char)
    ensures Tokens(s, sep) == NonEmpty(Split(s, sep))
    decreases |s|
  {
    hide Split, Strtok, NonEmpty, TokenLength;
    if s == [] {
      SplitNone(s, sep);
      NoTokens(sep);
    } else {
      StrtokStep(s, sep);
      var n := TokenLength(s, sep);
      if s[0] == sep {
        TokensAreSplit(s[1..], sep);
        assert s == [] + [sep] + s[1..];
        SplitFirst([], s[1..], sep);
        NonEmptyNext([], Split(s[1..], sep));
      } else if n < |s| {
        TokensAreSplit(s[n + 1..], sep);
        assert s == s[..n] + [sep] + s[n + 1..];
        SplitFirst(s[..n], s[n + 1..], sep);
        NonEmptyNext(s[..n], Split(s[n + 1..], sep));
      } else {
        assert s[..n] == s;
        SplitNone(s, sep);
        NoTokens(sep);
        var none: seq<string> := [];
        NonEmptyNext(s, none);
        assert [s] + none == [s];
      }
    }
  }

  lemma NoTokens(sep: char)
    ensures Strtok([], sep) == None && NonEmpty([]) == [] && NonEmpty([[]]) == []
  {
  }

  function DigitPrefix(s: string): (d: string)
    ensures AllDigits(d)
  {
    if s == [] || !IsDigit(s[0]) then [] else [s[0]] + DigitPrefix(s[1..])
  }

  /** strtol in base ten, with its saturation at the limits of long. */
  function Strtol(s: string): int {
    var t := SkipSpace(s);
    if t != [] && t[0] == '-' then
      var v: int := DecValue(DigitPrefix(t[1..])); if v > LONG_MAX then -LONG_MAX - 1 else -v
    else
      var v := DecValue(DigitPrefix(if t != [] && t[0] == '+' then t[1..] else t));
      if v > LONG_MAX then LONG_MAX else v
  }

  /** The cast from long to int. */
  function CastInt(x: int): (i: int)
    ensures -INT_MAX - 1 <= i <= INT_MAX
    ensures -INT_MAX - 1 <= x <= INT_MAX ==> i == x
  {
    (x + 0x8000_0000) % 0x1_0000_0000 - 0x8000_0000
  }

  // ----- the parser -----

  /** NullToken: a token of dashes only, on which strtol is given a null pointer. */
  datatype Status = CatOk | CatErr | NullToken

  datatype Parsed = Parsed(list: seq<nat>, status: Status)

  datatype CoreToken = OneCore(id: int) | Cores(before: nat, after: nat) | BadRange | Dashes

  function CoreTokenOf(token: string): CoreToken {
    match Strtok(token, '-')
    case None => Dashes
    case Some((first, rest)) =>
      var before, after := CastInt(Strtol(first)), if rest == [] then -1 else CastInt(Strtol(rest));
      if after < 0 then OneCore(before)
      else if before > after || before < 0 || after == INT_MAX then BadRange
      else Cores(before, after)
  }

  function ParseToken(list: seq<nat>, token: string): Parsed {
    match CoreTokenOf(token)
    case OneCore(id) => Parsed(Insert(list, id), CatOk)
    case Cores(before, after) => Parsed(InsertAll(list, Span(before, after)), CatOk)
    case BadRange => Parsed(list, CatErr)
    case Dashes => Parsed(list, NullToken)
  }

  /** A bad range ends the parse; what was inserted before it stays. */
  function ParseTokens(list: seq<nat>, tokens: seq<string>): Parsed {
    if tokens == [] then Parsed(list, CatOk)
    else
      var p := ParseTokens(list, tokens[..|tokens| - 1]);
      if p.status != CatOk then p else ParseToken(p.list, tokens[|tokens| - 1])
  }

  lemma {:induction false} StoppedParse(list: seq<nat>, done: seq<string>, more: seq<string>)
    requires ParseTokens(list, done).status != CatOk
    ensures ParseTokens(list, done + more) == ParseTokens(list, done)
  {
    hide ParseToken;
    if more == [] {
      assert done + more == done;
    } else {
      assert (done + more)[..|done + more| - 1] == done + more[..|more| - 1];
      StoppedParse(list, done, more[..|more| - 1]);
    }
  }

  lemma NextToken(list: seq<nat>, done: seq<string>, token: string)
    requires ParseTokens(list, done).status == CatOk
    ensures ParseTokens(list, done + [token]) == ParseToken(ParseTokens(list, done).list, token)
  {
    assert (done + [token])[..|done|] == done;
  }

  lemma NoneParsed(list: seq<nat>)
    ensures ParseTokens(list, []) == Parsed(list, CatOk)
  {
  }

  lemma TokensNext(s: string, sep: char)
    ensures var next := Strtok(s, sep);
            Tokens(s, sep) == if next == None then [] else [next.value.0] + Tokens(next.value.1, sep)
  {
    hide Strtok;
  }

  lemma AsInserted<T>(was: seq<T>, now: seq<T>, i: nat, x: T)
    requires i < |was| && |now| == |was| + 1 && now[i] == x
    requires forall k :: 0 <= k < i ==> now[k] == was[k]
    requires forall k :: i < k < |now| ==> now[k] == was[k - 1]
    ensures now == was[..i] + [x] + was[i..]
  {
  }

  class CoreList {
    const orderList: array<nat>
    var currentNums: nat

    ghost predicate Valid()
      reads this, orderList
    {
      orderList.Length == MAX_CPU_CORES && currentNums <= MAX_CPU_CORES && CoreOrder(Contents())
    }

    ghost function Contents(): seq<nat>
      requires orderList.Length == MAX_CPU_CORES && currentNums <= MAX_CPU_CORES
      reads this, orderList
    {
      orderList[..currentNums]
    }

    constructor ()
      ensures Valid() && Contents() == [] && fresh(orderList)
    {
      orderList := new nat[MAX_CPU_CORES];
      currentNums := 0;
    }

    /** Moves the elements from i on up by one; every index stays below 65536. */
    method ShiftUp(i: nat)
      requires orderList.Length == MAX_CPU_CORES && i < currentNums < MAX_CPU_CORES
      modifies orderList
      ensures forall k :: 0 <= k < i ==> orderList[k] == old(orderList[k])
      ensures forall k :: i < k <= currentNums ==> orderList[k] == old(orderList[k - 1])
    {
      var j := currentNums - 1;
      while j >= i
        invariant i <= j + 1 <= currentNums
        invariant forall k :: 0 <= k <= j ==> orderList[k] == old(orderList[k])
        invariant forall k :: j + 1 < k <= currentNums ==> orderList[k] == old(orderList[k - 1])
        decreases j
      {
        orderList[j + 1] := orderList[j];
        if j == 0 {
          break;
        }
        j := j - 1;
      }
    }

    method ShiftAndStore(i: nat, coreid: nat)
      requires orderList.Length == MAX_CPU_CORES && i < currentNums < MAX_CPU_CORES
      modifies this`currentNums, orderList
      ensures currentNums == old(currentNums) + 1
      ensures Contents() == old(Contents())[..i] + [coreid] + old(Contents())[i..]
    {
      hide CoreOrder;
      ghost var was := Contents();
      ShiftUp(i);
      orderList[i] := coreid;
      currentNums := currentNums + 1;
      AsInserted(was, Contents(), i, coreid);
    }

    method InsertCoreToList(coreid: int) returns (status: Status)
      requires Valid()
      modifies this`currentNums, orderList
      ensures Valid() && Contents() == Insert(old(Contents()), coreid)
      ensures status == if coreid < 0 then CatErr else CatOk
    {
      InsertKeepsOrder(Contents(), coreid);
      if coreid == 0 {
        return CatOk;
      }
      if coreid < 0 {
        return CatErr;
      }
      if currentNums >= MAX_CPU_CORES {
        return CatOk;
      }
      InsertPositive(coreid);
      status := CatOk;
    }

    method InsertPositive(coreid: nat)
      requires Valid() && currentNums < MAX_CPU_CORES && coreid > 0
      modifies this`currentNums, orderList
      ensures orderList.Length == MAX_CPU_CORES && currentNums <= MAX_CPU_CORES
      ensures Contents() == SortedInsert(old(Contents()), coreid)
    {
      hide CoreOrder;
      var ifInsert := false;
      var i := 0;
      while i < currentNums
        invariant !ifInsert && 0 <= i <= currentNums == old(currentNums)
        invariant forall k :: 0 <= k < i ==> orderList[k] < coreid
        invariant Contents() == old(Contents())
      {
        if orderList[i] < coreid {
          i := i + 1;
          continue;
        } else if orderList[i] == coreid {
          InsertPlace(Contents(), coreid, i);
          ifInsert := true;
          break;
        }
        InsertPlace(Contents(), coreid, i);
        ShiftAndStore(i, coreid);
        ifInsert := true;
        break;
      }
      if !ifInsert {
        InsertPlace(Contents(), coreid, currentNums);
        orderList[currentNums] := coreid;
        currentNums := currentNums + 1;
        assert Contents() == old(Contents()) + [coreid];
      }
    }

    method InsertRange(before: nat, after: nat)
      requires Valid() && before <= after
      modifies this`currentNums, orderList
      ensures Valid() && Contents() == InsertAll(old(Contents()), Span(before, after))
    {
      hide Insert, CoreOrder;
      for i := before to after + 1
        invariant Valid() && Contents() == InsertAll(old(Contents()), Span(before, after)[..i - before])
      {
        assert Span(before, after)[..i + 1 - before][..i - before] == Span(before, after)[..i - before];
        var _ := InsertCoreToList(i);
      }
      assert Span(before, after)[..after + 1 - before] == Span(before, after);
    }

    /** parse_patrol_result: the final list and status are those of the tokens one after the other. */
    method ParsePatrolResult(text: string) returns (status: Status)
      requires Valid()
      modifies this`currentNums, orderList
      ensures Valid() && ParseTokens(old(Contents()), Tokens(text, ',')) == Parsed(Contents(), status)
    {
      hide Strtok, Tokens, ParseTokens, ParseToken, CoreOrder;
      NoneParsed(Contents());
      var buf := text;
      ghost var was := Contents();
      ghost var seen: seq<string> := [];
      while true
        invariant Valid() && ParseTokens(was, seen) == Parsed(Contents(), CatOk)
        invariant Tokens(text, ',') == seen + Tokens(buf, ',')
        decreases |buf|
      {
        var next := Strtok(buf, ',');
        TokensNext(buf, ',');
        if next == None {
          assert seen + [] == seen;
          return CatOk;
        }
        var (token, rest) := next.value;
        NextToken(was, seen, token);
        assert Tokens(text, ',') == (seen + [token]) + Tokens(rest, ',');
        status := HandleToken(token);
        seen, buf := seen + [token], rest;
        if status != CatOk {
          StoppedParse(was, seen, Tokens(rest, ','));
          return;
        }
      }
    }

    method HandleToken(token: string) returns (status: Status)
      requires Valid()
      modifies this`currentNums, orderList
      ensures Valid() && ParseToken(old(Contents()), token) == Parsed(Contents(), status)
    {
      hide Strtok, Insert, InsertAll, CoreOrder, Strtol;
      var split := Strtok(token, '-');
      if split == None {
        return NullToken;
      }
      var (first, rest) := split.value;
      var before, after := CastInt(Strtol(first)), -1;
      if rest != [] {
        after := CastInt(Strtol(rest));
      }
      if after < 0 {
        var _ := InsertCoreToList(before);
      } else {
        if before > after || before < 0 || after < 0 || after == INT_MAX {
          return CatErr;
        }
        InsertRange(before, after);
      }
      status := CatOk;
    }
  }

  // ----- printer and C parser together -----

  lemma {:induction false} WholePrefix(s: string)
    requires AllDigits(s)
    ensures DigitPrefix(s) == s
  {
    if s == [] {
    } else {
      WholePrefix(s[1..]);
    }
  }

  lemma StrtolDec(n: nat)
    requires n <= INT_MAX
    ensures CastInt(Strtol(Dec(n))) == n
  {
    hide Dec, DecValue;
    var s := Dec(n);
    assert IsDigit(s[0]);
    assert SkipSpace(s) == s;
    WholePrefix(s);
    DecRoundTrip(n);
  }

  lemma {:induction false} TokenEnds(s: string, sep: char, n: nat)
    requires n <= |s| && sep !in s[..n] && (n < |s| ==> s[n] == sep)
    ensures TokenLength(s, sep) == n
  {
    if n == 0 {
    } else {
      assert s[0] == s[..n][0] && s[1..][..n - 1] == s[..n][1..];
      TokenEnds(s[1..], sep, n - 1);
    }
  }

  lemma StrtokNumber(a: string, b: string)
    requires AllDigits(a) && a != []
    ensures Strtok(a, '-') == Some((a, ""))
    ensures Strtok(a + "-" + b, '-') == Some((a, b))
  {
    var s := a + "-" + b;
    assert IsDigit(a[0]) && s[0] == a[0] && s[..|a|] == a && s[|a| + 1..] == b && a[..|a|] == a;
    TokenEnds(a, '-', |a|);
    TokenEnds(s, '-', |a|);
  }

  lemma StrtolPlain(d: string)
    requires d != [] && AllDigits(d)
    ensures SkipSpace(d) == d && d[0] != '-' && d[0] != '+' && DigitPrefix(d) == d
  {
    WholePrefix(d);
    assert IsDigit(d[0]);
  }

  lemma StrtolSigned(sign: char, d: string)
    requires sign == '+' || sign == '-'
    ensures SkipSpace([sign] + d) == [sign] + d && ([sign] + d)[1..] == d && ([sign] + d)[0] == sign
  {
  }

  /** A number is read as it is, up to the limits of a 64-bit long, at which it stops. */
  lemma StrtolClamps(d: string)
    requires d != [] && AllDigits(d)
    ensures var v: int := DecValue(d);
            && Strtol(d) == Strtol(['+'] + d) == (if v <= 0x7FFF_FFFF_FFFF_FFFF then v else 0x7FFF_FFFF_FFFF_FFFF)
            && Strtol(['-'] + d) == if v <= 0x7FFF_FFFF_FFFF_FFFF then -v else -0x8000_0000_0000_0000
  {
    StrtolPlain(d);
    StrtolSigned('+', d);
    StrtolSigned('-', d);
    hide DecValue, DigitPrefix, SkipSpace, AllDigits;
  }

  /** A number with a dash after it is one core. Two numbers are a range, but for one that runs backwards and one up to
      the greatest int, which are refused; a range may well be one core or begin at core 0. */
  lemma NumbersToken(a: nat, b: nat)
    requires a <= 2147483647 && b <= 2147483647
    ensures CoreTokenOf(Dec(a)) == CoreTokenOf(Dec(a) + "-") == OneCore(a)
    ensures CoreTokenOf(Dec(a) + "-" + Dec(b)) == if a > b || b == 2147483647 then BadRange else Cores(a, b)
  {
    hide Dec, Strtok, Strtol;
    StrtokNumber(Dec(a), "");
    StrtokNumber(Dec(a), Dec(b));
    StrtolDec(a);
    StrtolDec(b);
    assert Dec(a) + "-" + "" == Dec(a) + "-";
  }

  lemma RangeToken(list: seq<nat>, r: Range)
    requires r.lo <= r.hi < INT_MAX
    ensures ParseToken(list, RenderRange(r)) == Parsed(InsertAll(list, Span(r.lo, r.hi)), CatOk)
  {
    hide Dec, Strtok, Strtol, Insert;
    StrtokNumber(Dec(r.lo), Dec(r.hi));
    StrtolDec(r.lo);
    StrtolDec(r.hi);
    if r.lo == r.hi {
      var none: seq<nat> := [];
      assert Span(r.lo, r.hi) == [r.lo] && [r.lo][..0] == none;
    }
  }

  lemma {:induction false} RenderedTokens(list: seq<nat>, rs: seq<Range>)
    requires Ordered(rs) && forall i :: 0 <= i < |rs| ==> rs[i].hi < INT_MAX
    ensures ParseTokens(list, RenderEach(rs)) == Parsed(InsertAll(list, Members(rs)), CatOk)
  {
    hide RenderRange, ParseToken, InsertAll, Span;
    if rs == [] {
      NothingInserted(list);
    } else {
      var n := |rs| - 1;
      RenderedTokens(list, rs[..n]);
      assert RenderEach(rs)[..n] == RenderEach(rs[..n]);
      RangeToken(InsertAll(list, Members(rs[..n])), rs[n]);
      InsertAllConcat(list, Members(rs[..n]), Span(rs[n].lo, rs[n].hi));
    }
  }

  lemma NothingInserted(list: seq<nat>)
    ensures InsertAll(list, []) == list
  {
  }

  lemma {:induction false} AllNonEmpty(parts: seq<string>)
    requires forall i :: 0 <= i < |parts| ==> parts[i] != []
    ensures NonEmpty(parts) == parts
  {
    if parts == [] {
    } else {
      AllNonEmpty(parts[1..]);
    }
  }

  lemma InsertAbove(s: seq<nat>, core: nat)
    requires |s| < MAX_CPU_CORES && core > 0 && forall x :: x in s ==> x < core
    ensures Insert(s, core) == s + [core]
  {
    assert forall i :: 0 <= i < |s| ==> s[i] in s;
    InsertPlace(s, core, |s|);
    assert s[..|s|] + [core] + s[|s|..] == s + [core];
  }

  lemma InsertAllNext(s: seq<nat>, ids: seq<nat>, core: nat)
    ensures InsertAll(s, ids + [core]) == Insert(InsertAll(s, ids), core)
  {
    assert (ids + [core])[..|ids|] == ids;
  }

  lemma NextAscending(s: set<nat>, n: nat)
    ensures AscendingBelow(s, n + 1) == if n in s then AscendingBelow(s, n) + [n] else AscendingBelow(s, n)
  {
    assert AscendingBelow(s, n) + [] == AscendingBelow(s, n);
  }

  /** As many of the ids as the list can hold, from the front. */
  function Capped(ids: seq<nat>): (r: seq<nat>)
    ensures |r| <= MAX_CPU_CORES && (|ids| <= MAX_CPU_CORES ==> r == ids)
  {
    if |ids| <= MAX_CPU_CORES then ids else ids[..MAX_CPU_CORES]
  }

  lemma CappedMeans(ids: seq<nat>)
    ensures Capped(ids) == if |ids| <= 4096 then ids else ids[..4096]
  {
  }

  lemma InsertNextAbove(before: seq<nat>, core: nat)
    requires core > 0 && forall x :: x in before ==> x < core
    ensures Insert(Capped(before), core) == Capped(before + [core])
  {
    hide SortedInsert;
    if |before| < MAX_CPU_CORES {
      InsertAbove(before, core);
    } else {
      assert (before + [core])[..MAX_CPU_CORES] == before[..MAX_CPU_CORES] == Capped(before);
    }
  }

  lemma InsertLast(ids: seq<nat>, before: seq<nat>, core: nat)
    requires InsertAll([], ids) == Capped(before) && forall x :: x in before ==> x < core
    ensures InsertAll([], ids + [core]) == if core == 0 then Capped(before) else Capped(before + [core])
  {
    hide InsertAll, Capped, SortedInsert;
    InsertAllNext([], ids, core);
    if core > 0 { InsertNextAbove(before, core); }
  }

  lemma NothingCapped()
    ensures InsertAll([], []) == Capped([])
  {
  }

  /** Ids in ascending order are appended one by one, all but core 0, until the list is full. */
  lemma {:induction false} InsertAscending(s: set<nat>, n: nat)
    ensures InsertAll([], AscendingBelow(s, n)) == Capped(AscendingBelow(s - {0}, n))
  {
    hide InsertAll, Capped;
    if n == 0 {
      NothingCapped();
    } else {
      var t, core := s - {0}, n - 1;
      InsertAscending(s, core);
      NextAscending(s, core);
      NextAscending(t, core);
      AscendingBelowMeans(t, core);
      hide AscendingBelow;
      if core in s { InsertLast(AscendingBelow(s, core), AscendingBelow(t, core), core); }
    }
  }

  lemma AddBounded(rs: seq<Range>, i: nat)
    requires Ordered(rs) && forall k :: 0 <= k < |rs| ==> rs[k].hi < i
    ensures forall k :: 0 <= k < |AddMember(rs, i)| ==> AddMember(rs, i)[k].hi < i + 1
  {
  }

  lemma {:induction false} RunsBounded(s: set<nat>, n: nat)
    ensures forall i :: 0 <= i < |RunsBelow(s, n)| ==> RunsBelow(s, n)[i].hi < n
  {
    hide AddMember, Ordered;
    if n == 0 {
    } else {
      RunsBounded(s, n - 1);
      NextRuns(s, n - 1);
      AddBounded(RunsBelow(s, n - 1), n - 1);
    }
  }

  /** For every non-empty CPU set of ids below INT_MAX the C parser makes of the printed text the 4096 smallest
      members other than core 0: the whole set without core 0 when the list can hold it. */
  lemma PrintedSetIsParsed(cpuSet: set<nat>, numCpus: nat)
    requires RunsBelow(cpuSet, numCpus) != [] && numCpus <= INT_MAX
    ensures ParseTokens([], Tokens(Render(RunsBelow(cpuSet, numCpus)), ',')) ==
            var ids := AscendingBelow(cpuSet - {0}, numCpus);
            Parsed(if |ids| <= 4096 then ids else ids[..4096], CatOk)
  {
    CappedMeans(AscendingBelow(cpuSet - {0}, numCpus));
    hide Render, RunsBelow, Tokens, AscendingBelow, ParseTokens, InsertAll, Members, Dec, Capped;
    var rs := RunsBelow(cpuSet, numCpus);
    SplitRendered(rs);
    TokensAreSplit(Render(rs), ',');
    AllNonEmpty(RenderEach(rs));
    RunsBounded(cpuSet, numCpus);
    RenderedTokens([], rs);
    RunsMembers(cpuSet, numCpus);
    InsertAscending(cpuSet, numCpus);
  }

  // ----- when the parse goes wrong -----

  predicate AllDashes(token: string) { forall i :: 0 <= i < |token| ==> token[i] == '-' }

  lemma {:induction false} SkipsAll(s: string, sep: char)
    ensures SkipSep(s, sep) == [] <==> forall i :: 0 <= i < |s| ==> s[i] == sep
  {
    if s == [] {
    } else if s[0] == sep {
      SkipsAll(s[1..], sep);
      assert s == [s[0]] + s[1..];
    }
  }

  /** strtok_r finds nothing in a token, and strtol gets a null pointer, exactly for a token of dashes only. */
  lemma DashTokens(token: string)
    ensures CoreTokenOf(token).Dashes? <==> AllDashes(token)
  {
    hide Strtol;
    SkipsAll(token, '-');
  }

  function TokenStatus(token: string): Status {
    match CoreTokenOf(token)
    case OneCore(_) => CatOk
    case Cores(_, _) => CatOk
    case BadRange => CatErr
    case Dashes => NullToken
  }

  /** The status of the first token that does not go through. */
  function StatusOf(tokens: seq<string>): Status {
    if tokens == [] then CatOk
    else
      var before := StatusOf(tokens[..|tokens| - 1]);
      if before != CatOk then before else TokenStatus(tokens[|tokens| - 1])
  }

  lemma {:induction false} ParseStatus(list: seq<nat>, tokens: seq<string>)
    ensures ParseTokens(list, tokens).status == StatusOf(tokens)
  {
    hide CoreTokenOf, Insert, InsertAll;
    if tokens == [] {
    } else {
      ParseStatus(list, tokens[..|tokens| - 1]);
    }
  }

  /** A token of dashes that is reached: no earlier one is a bad range. */
  ghost predicate NullAt(tokens: seq<string>, i: nat) {
    i < |tokens| && AllDashes(tokens[i]) && forall j :: 0 <= j < i ==> !CoreTokenOf(tokens[j]).BadRange?
  }

  lemma {:induction false} StatusMeans(tokens: seq<string>)
    ensures StatusOf(tokens) == CatOk ==> forall j :: 0 <= j < |tokens| ==> !CoreTokenOf(tokens[j]).BadRange?
    ensures StatusOf(tokens) == CatErr ==> exists j :: 0 <= j < |tokens| && CoreTokenOf(tokens[j]).BadRange?
    ensures StatusOf(tokens) == NullToken <==> exists i :: NullAt(tokens, i)
  {
    hide CoreTokenOf, AllDashes;
    if tokens == [] {
    } else {
      var n := |tokens| - 1;
      var init := tokens[..n];
      StatusMeans(init);
      DashTokens(tokens[n]);
      if i: nat :| NullAt(init, i) {
        assert NullAt(tokens, i);
      }
      if i: nat :| NullAt(tokens, i) && i < n {
        assert NullAt(init, i);
      }
      if StatusOf(init) == CatOk && TokenStatus(tokens[n]) == NullToken {
        assert NullAt(tokens, n);
      }
    }
  }

  /** The null pointer is reached if and only if some token is all dashes and no earlier one is a bad range. */
  lemma NullTokenExactly(list: seq<nat>, tokens: seq<string>)
    ensures ParseTokens(list, tokens).status == NullToken <==> exists i :: NullAt(tokens, i)
  {
    ParseStatus(list, tokens);
    StatusMeans(tokens);
  }

  /** For instance the text 3,- has the token 3 and the token of one dash. */
  lemma NullTokenExample(list: seq<nat>)
    ensures Tokens("3,-", ',') == ["3", "-"] && ParseTokens(list, ["3", "-"]).status == NullToken
  {
    hide CoreTokenOf, ParseTokens, Tokens, Split;
    SplitNone("3", ',');
    SplitLast("3", "-", ',');
    assert "3" + [','] + "-" == "3,-";
    TokensAreSplit("3,-", ',');
    AllNonEmpty(["3"] + ["-"]);
    ThreeIsFine();
    assert NullAt(["3", "-"], 1);
    NullTokenExactly(list, ["3", "-"]);
  }

  lemma ThreeIsFine()
    ensures CoreTokenOf("3").OneCore?
  {
    hide Strtol;
    StrtokNumber("3", "");
  }
}
