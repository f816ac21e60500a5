/** CPU sets printed as comma-separated ranges by the C side, and read back by the Python side. */
module CpuList {
  import opened Numerals
  import opened PythonText

  // ----- ranges -----

  datatype Range = Range(lo: nat, hi: nat)

  predicate Ordered(rs: seq<Range>) { forall i :: 0 <= i < |rs| ==> rs[i].lo <= rs[i].hi }

  function Span(lo: nat, hi: nat): (s: seq<nat>)
    ensures |s| == if lo <= hi then hi - lo + 1 else 0
    ensures forall i :: 0 <= i < |s| ==> s[i] == lo + i
  {
    if lo <= hi then seq(hi - lo + 1, i requires 0 <= i <= hi - lo => lo + i) else []
  }

  function Members(rs: seq<Range>): seq<nat> {
    if rs == [] then [] else Members(rs[..|rs| - 1]) + Span(rs[|rs| - 1].lo, rs[|rs| - 1].hi)
  }

  /** The members of the set below n, smallest first. */
  function AscendingBelow(s: set<nat>, n: nat): seq<nat> {
    if n == 0 then [] else AscendingBelow(s, n - 1) + if n - 1 in s then [n - 1] else []
  }

  ghost predicate StrictlyAscending(s: seq<nat>) { forall i, j :: 0 <= i < j < |s| ==> s[i] < s[j] }

  lemma {:induction false} AscendingBelowMeans(s: set<nat>, n: nat)
    ensures StrictlyAscending(AscendingBelow(s, n))
    ensures forall x :: x in AscendingBelow(s, n) <==> x in s && x < n
  {
    if n == 0 {
    } else {
      AscendingBelowMeans(s, n - 1);
      var before := AscendingBelow(s, n - 1);
      assert forall i :: 0 <= i < |before| ==> before[i] in before;
    }
  }

  /** i joins the last range or starts a new one. */
  function AddMember(rs: seq<Range>, i: nat): (r: seq<Range>)
    requires Ordered(rs) && (rs != [] ==> rs[|rs| - 1].hi < i)
    ensures Ordered(r) && r != [] && r[|r| - 1].hi == i
  {
    if rs != [] && i == rs[|rs| - 1].hi + 1 then rs[..|rs| - 1] + [Range(rs[|rs| - 1].lo, i)]
    else rs + [Range(i, i)]
  }

  /** The maximal runs of members below n. */
  function RunsBelow(s: set<nat>, n: nat): (rs: seq<Range>)
    ensures Ordered(rs)
    ensures rs != [] ==> rs[|rs| - 1].hi < n
  {
    if n == 0 then [] else if n - 1 in s then AddMember(RunsBelow(s, n - 1), n - 1) else RunsBelow(s, n - 1)
  }

  lemma MembersAppend(rs: seq<Range>, r: Range)
    ensures Members(rs + [r]) == Members(rs) + Span(r.lo, r.hi)
  {
    assert (rs + [r])[..|rs|] == rs;
  }

  lemma SpanGrows(lo: nat, hi: nat)
    requires lo <= hi
    ensures Span(lo, hi + 1) == Span(lo, hi) + [hi + 1] && Span(lo, lo) == [lo]
  {
  }

  lemma JoinRight<T>(a: seq<T>, b: seq<T>, c: seq<T>)
    ensures a + (b + c) == a + b + c
  {
  }

  lemma LastExtended(init: seq<Range>, last: Range)
    requires last.lo <= last.hi
    ensures Members(init + [Range(last.lo, last.hi + 1)]) == Members(init + [last]) + [last.hi + 1]
  {
    hide Members, Span;
    MembersAppend(init, last);
    MembersAppend(init, Range(last.lo, last.hi + 1));
    SpanGrows(last.lo, last.hi);
    JoinRight(Members(init), Span(last.lo, last.hi), [last.hi + 1]);
  }

  lemma AddedMember(rs: seq<Range>, i: nat)
    requires Ordered(rs) && (rs != [] ==> rs[|rs| - 1].hi < i)
    ensures Members(AddMember(rs, i)) == Members(rs) + [i]
  {
    hide Members, Span;
    if rs == [] || i != rs[|rs| - 1].hi + 1 {
      MembersAppend(rs, Range(i, i));
      SpanGrows(i, i);
    } else {
      JoinedMember(rs, rs[..|rs| - 1], rs[|rs| - 1], i);
    }
  }

  lemma JoinedMember(rs: seq<Range>, init: seq<Range>, last: Range, i: nat)
    requires rs != [] && init == rs[..|rs| - 1] && last == rs[|rs| - 1] && last.lo <= last.hi && i == last.hi + 1
    ensures Members(init + [Range(last.lo, i)]) == Members(rs) + [i]
  {
    hide Members;
    LastExtended(init, last);
    assert rs == init + [last];
  }

  lemma {:induction false} RunsMembers(s: set<nat>, n: nat)
    ensures Members(RunsBelow(s, n)) == AscendingBelow(s, n)
  {
    hide Members, AddMember;
    if n == 0 {
      NoMembers();
    } else {
      RunsMembers(s, n - 1);
      if n - 1 in s { AddedMember(RunsBelow(s, n - 1), n - 1); }
    }
  }

  lemma NoMembers()
    ensures Members([]) == []
  {
  }

  /** Two runs never touch, so no shorter list of ranges says the same. */
  lemma {:induction false} RunsApart(s: set<nat>, n: nat)
    ensures forall i :: 0 <= i < |RunsBelow(s, n)| - 1 ==> RunsBelow(s, n)[i].hi + 1 < RunsBelow(s, n)[i + 1].lo
  {
    if n == 0 {
    } else {
      RunsApart(s, n - 1);
    }
  }

  // ----- the printer -----

  function RenderRange(r: Range): string {
    if r.lo == r.hi then Dec(r.lo) else Dec(r.lo) + "-" + Dec(r.hi)
  }

  /** The ranges, each followed by a comma. */
  function Terminated(rs: seq<Range>): string {
    if rs == [] then [] else Terminated(rs[..|rs| - 1]) + RenderRange(rs[|rs| - 1]) + ","
  }

  function Render(rs: seq<Range>): string
    requires rs != []
  {
    Terminated(rs[..|rs| - 1]) + RenderRange(rs[|rs| - 1])
  }

  lemma TerminatedAppend(rs: seq<Range>, r: Range)
    ensures Terminated(rs + [r]) == Terminated(rs) + RenderRange(r) + ","
  {
    assert (rs + [r])[..|rs|] == rs;
  }

  const UINT32: int := 0x1_0000_0000

  /** What %u prints for an int. */
  function Unsigned(i: int): nat
    requires -UINT32 <= i < UINT32
  {
    if i < 0 then i + UINT32 else i
  }

  /** The loop of print_cpu_set: what follows the prefix, without the newline. The caller prints no text at
      all for the empty set; here it would be the unsigned -1. */
  method PrintCpuSet(cpuSet: set<nat>, numCpus: nat) returns (text: string)
    requires numCpus < UINT32
    ensures RunsBelow(cpuSet, numCpus) != [] ==> text == Render(RunsBelow(cpuSet, numCpus))
    ensures RunsBelow(cpuSet, numCpus) == [] ==> text == Dec(4294967295)
  {
    hide Dec, Terminated, RunsBelow;
    var isBeginSet, beginCpuid, endCpuid: int := false, -1, -1;
    text := "";
    NoRuns(cpuSet);
    for i := 0 to numCpus
      invariant isBeginSet <==> RunsBelow(cpuSet, i) != []
      invariant !isBeginSet ==> text == "" && beginCpuid == endCpuid == -1
      invariant isBeginSet ==>
                  var rs := RunsBelow(cpuSet, i);
                  0 <= beginCpuid <= endCpuid < i &&
                  rs[|rs| - 1] == Range(beginCpuid, endCpuid) && text == Terminated(rs[..|rs| - 1])
    {
      ghost var rs := RunsBelow(cpuSet, i);
      NextRuns(cpuSet, i);
      if i !in cpuSet {
        continue;
      }
      ghost var rs1 := AddMember(rs, i);
      if !isBeginSet {
        isBeginSet := true;
        beginCpuid, endCpuid := i, i;
        assert rs1[..0] == [];
        continue;
      }
      if i == endCpuid + 1 {
        endCpuid := endCpuid + 1;
        assert rs1[..|rs1| - 1] == rs[..|rs| - 1];
        continue;
      }
      text := text + (if beginCpuid == endCpuid then Dec(Unsigned(beginCpuid)) + ","
                      else Dec(Unsigned(beginCpuid)) + "-" + Dec(Unsigned(endCpuid)) + ",");
      assert rs1[..|rs1| - 1] == rs && rs == rs[..|rs| - 1] + [rs[|rs| - 1]];
      TerminatedAppend(rs[..|rs| - 1], rs[|rs| - 1]);
      endCpuid := i;
      beginCpuid := endCpuid;
    }
    text := text + if beginCpuid == endCpuid then Dec(Unsigned(beginCpuid))
                   else Dec(Unsigned(beginCpuid)) + "-" + Dec(Unsigned(endCpuid));
  }

  lemma NoRuns(s: set<nat>)
    ensures RunsBelow(s, 0) == [] && Terminated([]) == ""
  {
  }

  lemma NextRuns(s: set<nat>, i: nat)
    ensures RunsBelow(s, i + 1) == if i in s then AddMember(RunsBelow(s, i), i) else RunsBelow(s, i)
  {
  }

  // ----- splitting -----

  /** The pieces between separators: one more than there are separators. */
  function Split(s: string, sep: char): (parts: seq<string>)
    ensures |parts| >= 1
  {
    if s == [] then [[]]
    else
      var parts, c := Split(s[..|s| - 1], sep), s[|s| - 1];
      if c == sep then parts + [[]] else parts[..|parts| - 1] + [parts[|parts| - 1] + [c]]
  }

  lemma SplitStep(s: string, c: char, sep: char)
    ensures var parts := Split(s, sep);
            Split(s + [c], sep) ==
            if c == sep then parts + [[]] else parts[..|parts| - 1] + [parts[|parts| - 1] + [c]]
  {
    assert (s + [c])[..|s|] == s;
  }

  lemma {:induction false} SplitLast(a: string, b: string, sep: char)
    requires sep !in b
    ensures Split(a + [sep] + b, sep) == Split(a, sep) + [b]
  {
    var s := a + [sep] + b;
    if b == [] {
      assert s[..|s| - 1] == a;
    } else {
      var init := b[..|b| - 1];
      assert s[..|s| - 1] == a + [sep] + init && s[|s| - 1] == b[|b| - 1] && b == init + [b[|b| - 1]];
      assert s[|s| - 1] in b;
      SplitLast(a, init, sep);
    }
  }

  lemma {:induction false} SplitNone(b: string, sep: char)
    requires sep !in b
    ensures Split(b, sep) == [b]
  {
    if b == [] {
    } else {
      assert b[|b| - 1] in b && b == b[..|b| - 1] + [b[|b| - 1]];
      SplitNone(b[..|b| - 1], sep);
    }
  }

  function RenderEach(rs: seq<Range>): (parts: seq<string>)
    ensures |parts| == |rs|
  {
    seq(|rs|, i requires 0 <= i < |rs| => RenderRange(rs[i]))
  }

  lemma NoCommaInRange(r: Range)
    ensures ',' !in RenderRange(r)
  {
    hide Dec;
  }

  lemma {:induction false} SplitRendered(rs: seq<Range>)
    requires rs != []
    ensures Split(Render(rs), ',') == RenderEach(rs)
  {
    hide RenderRange;
    var n := |rs| - 1;
    NoCommaInRange(rs[n]);
    if n == 0 {
      assert Render(rs) == RenderRange(rs[0]) by { assert rs[..0] == []; }
      SplitNone(RenderRange(rs[0]), ',');
    } else {
      var init := rs[..n];
      SplitRendered(init);
      assert Terminated(init) == Render(init) + ",";
      SplitLast(Render(init), RenderRange(rs[n]), ',');
      assert RenderEach(rs) == RenderEach(init) + [RenderRange(rs[n])];
    }
  }

  // ----- the validity pattern -----

  /** The automaton of the pattern (\d+(-\d+)?,?)*\d+(-\d+)? over ASCII digits. */
  datatype Scan = NeedDigit | Number | AfterDash | OneDigit | TwoDigits | Stuck

  function Next(q: Scan, c: char): Scan {
    match q
    case NeedDigit => if IsDigit(c) then Number else Stuck
    case Number => if IsDigit(c) then Number else if c == '-' then AfterDash else if c == ',' then NeedDigit else Stuck
    case AfterDash => if IsDigit(c) then OneDigit else Stuck
    case OneDigit => if IsDigit(c) then TwoDigits else if c == ',' then NeedDigit else Stuck
    case TwoDigits =>
      if IsDigit(c) then TwoDigits else if c == '-' then AfterDash else if c == ',' then NeedDigit else Stuck
    case Stuck => Stuck
  }

  function ScanFrom(q: Scan, s: string): Scan {
    if s == [] then q else Next(ScanFrom(q, s[..|s| - 1]), s[|s| - 1])
  }

  predicate Accepting(q: Scan) { q.Number? || q.OneDigit? || q.TwoDigits? }

  /** is_valid_cpu_input: the end of the pattern also matches before a final newline. */
  predicate IsValidCpuInput(s: string) {
    Accepting(ScanFrom(NeedDigit, s)) ||
    (s != [] && s[|s| - 1] == '\n' && Accepting(ScanFrom(NeedDigit, s[..|s| - 1])))
  }

  lemma {:induction false} ScanConcat(q: Scan, a: string, b: string)
    ensures ScanFrom(q, a + b) == ScanFrom(ScanFrom(q, a), b)
  {
    if b == [] {
      assert a + b == a;
    } else {
      assert (a + b)[..|a + b| - 1] == a + b[..|b| - 1];
      ScanConcat(q, a, b[..|b| - 1]);
    }
  }

  lemma {:induction false} ScanDigits(q: Scan, d: string)
    requires AllDigits(d) && d != [] && (q.NeedDigit? || q.AfterDash?)
    ensures Accepting(ScanFrom(q, d)) && (q.NeedDigit? ==> ScanFrom(q, d).Number?)
  {
    if |d| > 1 {
      ScanDigits(q, d[..|d| - 1]);
    } else {
      assert d[..0] == [];
    }
  }

  lemma ScanRange(r: Range)
    ensures Accepting(ScanFrom(NeedDigit, RenderRange(r)))
  {
    hide Dec, ScanFrom;
    ScanDigits(NeedDigit, Dec(r.lo));
    if r.lo != r.hi {
      ScanConcat(NeedDigit, Dec(r.lo) + "-", Dec(r.hi));
      ScanOne(NeedDigit, Dec(r.lo), '-');
      ScanDigits(AfterDash, Dec(r.hi));
    }
  }

  lemma ScanOne(q: Scan, a: string, c: char)
    ensures ScanFrom(q, a + [c]) == Next(ScanFrom(q, a), c)
  {
    assert (a + [c])[..|a|] == a;
  }

  lemma {:induction false} ScanTerminated(rs: seq<Range>)
    ensures ScanFrom(NeedDigit, Terminated(rs)) == NeedDigit
  {
    hide RenderRange;
    if rs == [] {
    } else {
      var n := |rs| - 1;
      ScanTerminated(rs[..n]);
      ScanRange(rs[n]);
      ScanConcat(NeedDigit, Terminated(rs[..n]), RenderRange(rs[n]));
      ScanOne(NeedDigit, Terminated(rs[..n]) + RenderRange(rs[n]), ',');
    }
  }

  lemma RenderedIsValid(rs: seq<Range>)
    requires rs != []
    ensures Accepting(ScanFrom(NeedDigit, Render(rs)))
  {
    var n := |rs| - 1;
    hide RenderRange, ScanFrom;
    ScanTerminated(rs[..n]);
    ScanRange(rs[n]);
    ScanConcat(NeedDigit, Terminated(rs[..n]), RenderRange(rs[n]));
  }

  // ----- the Python parser -----

  function FirstDash(s: string): (i: nat)
    ensures i <= |s| && (i < |s| ==> s[i] == '-') && '-' !in s[..i]
  {
    if s == [] then 0 else if s[0] == '-' then 0 else 1 + FirstDash(s[1..])
  }

  /** A piece is a number, or two numbers with a dash between them, or neither. */
  datatype Piece = One(id: nat) | From(lo: nat, hi: nat) | Malformed

  function PieceOf(s: string): Piece {
    if s != [] && AllDigits(s) then One(DecValue(s))
    else
      var d := FirstDash(s);
      if 0 < d && d + 1 < |s| && AllDigits(s[..d]) && AllDigits(s[d + 1..])
      then From(DecValue(s[..d]), DecValue(s[d + 1..])) else Malformed
  }

  /** A piece is a number if and only if it is digits, and a range if and only if it is digits, a dash, and digits. */
  lemma PieceExactly(s: string, a: string, b: string)
    ensures PieceOf(s).One? <==> s != [] && AllDigits(s)
    ensures AllDigits(a) && AllDigits(b) && s == a + "-" + b ==>
              PieceOf(s) == if a != [] && b != [] then From(DecValue(a), DecValue(b)) else Malformed
    ensures PieceOf(s).From? ==>
              exists d :: 0 < d < |s| - 1 && s[d] == '-' && AllDigits(s[..d]) && AllDigits(s[d + 1..])
  {
    if AllDigits(a) && AllDigits(b) && s == a + "-" + b {
      DashPlace(s, |a|);
      assert s[..|a|] == a && s[|a| + 1..] == b && !IsDigit(s[|a|]);
    }
    hide FirstDash;
  }

  /** The ids the pieces stand for; none when a range is the wrong way round. */
  function Ids(parts: seq<string>): Option<seq<nat>> {
    if parts == [] then Some([])
    else
      match (Ids(parts[..|parts| - 1]), PieceOf(Strip(parts[|parts| - 1])))
      case (None, _) => None
      case (Some(ids), One(id)) => Some(ids + [id])
      case (Some(ids), From(lo, hi)) => if lo > hi then None else Some(ids + Span(lo, hi))
      case (Some(ids), Malformed) => Some(ids)
  }

  function ConvertToList(input: string): seq<nat> {
    if !IsValidCpuInput(input) then []
    else
      match Ids(Split(input, ','))
      case None => []
      case Some(ids) => ids
  }

  lemma {:induction false} IdsFail(parts: seq<string>, i: nat)
    requires i <= |parts| && Ids(parts[..i]) == None
    ensures Ids(parts) == None
  {
    if i < |parts| {
      assert parts[..|parts| - 1][..i] == parts[..i];
      IdsFail(parts[..|parts| - 1], i);
    } else {
      assert parts[..i] == parts;
    }
  }

  method CpuFormatConvertToList(input: string) returns (cpuList: seq<nat>)
    ensures cpuList == ConvertToList(input)
  {
    hide Split, PieceOf, Strip;
    if !IsValidCpuInput(input) {
      return [];
    }
    cpuList := [];
    var parts := [input];
    if ',' in input {
      parts := Split(input, ',');
    } else {
      SplitNone(input, ',');
    }
    for i := 0 to |parts|
      invariant Ids(parts[..i]) == Some(cpuList)
    {
      assert parts[..i + 1][..i] == parts[..i];
      match PieceOf(Strip(parts[i])) {
        case One(id) => cpuList := cpuList + [id];
        case From(lo, hi) =>
          if lo > hi {
            IdsFail(parts, i + 1);
            return [];
          }
          cpuList := cpuList + Span(lo, hi);
        case Malformed =>
      }
    }
    assert parts[..|parts|] == parts;
  }

  // ----- printer and parser together -----

  lemma RangePiece(r: Range)
    ensures PieceOf(RenderRange(r)) == if r.lo == r.hi then One(r.lo) else From(r.lo, r.hi)
    ensures Strip(RenderRange(r)) == RenderRange(r) && Strip(RenderRange(r) + "\n") == RenderRange(r)
  {
    hide Dec, DecValue;
    DecRoundTrip(r.lo);
    DecRoundTrip(r.hi);
    var s := RenderRange(r);
    StripEnds(s);
    if r.lo != r.hi {
      var k := |Dec(r.lo)|;
      assert s[k] == '-' && s[..k] == Dec(r.lo) && s[k + 1..] == Dec(r.hi);
      DashPlace(s, k);
    }
  }

  lemma {:induction false} DashPlace(s: string, k: nat)
    requires k < |s| && s[k] == '-' && AllDigits(s[..k])
    ensures FirstDash(s) == k
  {
    if k == 0 {
    } else {
      assert s[0] == s[..k][0];
      assert s[1..][..k - 1] == s[..k][1..];
      DashPlace(s[1..], k - 1);
    }
  }

  lemma {:induction false} RenderedIds(rs: seq<Range>)
    requires Ordered(rs)
    ensures Ids(RenderEach(rs)) == Some(Members(rs))
  {
    hide RenderRange, PieceOf, Strip;
    if rs == [] {
    } else {
      var n := |rs| - 1;
      RenderedIds(rs[..n]);
      RangePiece(rs[n]);
      assert RenderEach(rs)[..n] == RenderEach(rs[..n]);
      if rs[n].lo == rs[n].hi { assert Span(rs[n].lo, rs[n].hi) == [rs[n].lo]; }
    }
  }

  /** For every non-empty CPU set, of any size, the Python side reads from the printed text exactly that set,
      in ascending order. */
  lemma PrintedSetIsRead(cpuSet: set<nat>, numCpus: nat)
    requires exists i: nat :: i < numCpus && i in cpuSet
    ensures RunsBelow(cpuSet, numCpus) != []
    ensures ConvertToList(Render(RunsBelow(cpuSet, numCpus))) == AscendingBelow(cpuSet, numCpus)
  {
    hide RunsBelow, AscendingBelow, Render, Ids, Split, ScanFrom, Members;
    var rs := RunsBelow(cpuSet, numCpus);
    RunsMembers(cpuSet, numCpus);
    AscendingBelowMeans(cpuSet, numCpus);
    SomeRun(rs, AscendingBelow(cpuSet, numCpus));
    SplitRendered(rs);
    RenderedIsValid(rs);
    RenderedIds(rs);
  }

  lemma SomeRun(rs: seq<Range>, members: seq<nat>)
    requires Members(rs) == members && exists i :: i in members
    ensures rs != []
  {
  }

  lemma SplitNewline(s: string)
    ensures var parts := Split(s, ',');
            Split(s + "\n", ',') == parts[..|parts| - 1] + [parts[|parts| - 1] + "\n"]
  {
    assert (s + "\n")[..|s|] == s;
  }

  lemma IdsAppend(parts: seq<string>, part: string, other: string)
    requires Strip(part) == Strip(other)
    ensures Ids(parts + [part]) == Ids(parts + [other])
  {
    hide PieceOf, Strip;
    assert (parts + [part])[..|parts|] == parts == (parts + [other])[..|parts|];
  }

  /** A trailing newline, as a sysfs file has, changes nothing. */
  lemma NewlineIgnored(rs: seq<Range>)
    requires rs != [] && Ordered(rs)
    ensures ConvertToList(Render(rs) + "\n") == ConvertToList(Render(rs))
  {
    hide Render, RenderRange, Ids, Split, Strip, ScanFrom;
    var n, t := |rs| - 1, Render(rs) + "\n";
    SplitRendered(rs);
    RenderedIsValid(rs);
    RangePiece(rs[n]);
    assert t[..|t| - 1] == Render(rs);
    SplitNewline(Render(rs));
    IdsAppend(RenderEach(rs)[..n], RenderRange(rs[n]) + "\n", RenderRange(rs[n]));
    assert RenderEach(rs)[..n] + [RenderRange(rs[n])] == RenderEach(rs);
  }

  lemma ScanEmpty(q: Scan)
    ensures ScanFrom(q, "") == q
  {
  }

  lemma TwoDashesScan()
    ensures IsValidCpuInput("1-10-20")
  {
    hide ScanFrom;
    ScanEmpty(NeedDigit);
    ScanOne(NeedDigit, "", '1');
    assert "" + ['1'] == "1" && "1" + ['-'] == "1-" && "1-" + ['1'] == "1-1" && "1-1" + ['0'] == "1-10";
    ScanOne(NeedDigit, "1", '-');
    ScanOne(NeedDigit, "1-", '1');
    ScanOne(NeedDigit, "1-1", '0');
    assert "1-10" + ['-'] == "1-10-" && "1-10-" + ['2'] == "1-10-2" && "1-10-2" + ['0'] == "1-10-20";
    ScanOne(NeedDigit, "1-10", '-');
    ScanOne(NeedDigit, "1-10-", '2');
    ScanOne(NeedDigit, "1-10-2", '0');
  }

  lemma TwoDashesPiece()
    ensures PieceOf("1-10-20").Malformed?
  {
    var s := "1-10-20";
    DashPlace(s, 1);
    assert s[2..][2] == '-';
    assert !AllDigits(s[2..]) && !AllDigits(s) by { assert s[1] == '-'; }
  }

  lemma IdsOfOne(part: string)
    ensures Ids([part]) == match PieceOf(Strip(part))
                           case One(id) => Some([id])
                           case From(lo, hi) => if lo > hi then None else Some(Span(lo, hi))
                           case Malformed => Some([])
  {
    hide PieceOf, Strip;
    var none: seq<string> := [];
    assert [part][..0] == none && forall s: seq<nat> :: [] + s == s;
  }

  // ----- what the pattern accepts beyond its documentation -----

  function Dashes(s: string): (n: nat)
    ensures n == 0 <==> '-' !in s
  {
    if s == [] then 0
    else
      assert s == s[..|s| - 1] + [s[|s| - 1]];
      Dashes(s[..|s| - 1]) + if s[|s| - 1] == '-' then 1 else 0
  }

  lemma {:induction false} DashesConcat(a: string, b: string)
    ensures Dashes(a + b) == Dashes(a) + Dashes(b)
  {
    if b == [] {
      assert a + b == a;
    } else {
      assert (a + b)[..|a + b| - 1] == a + b[..|b| - 1];
      DashesConcat(a, b[..|b| - 1]);
    }
  }

  predicate Accepted(s: string) { Accepting(ScanFrom(NeedDigit, s)) }

  /** What the automaton knows about a piece without commas by the number of its dashes. */
  ghost predicate PieceShape(p: string, q: Scan) {
    && (p != [] ==> IsDigit(p[0]))
    && (q.NeedDigit? <==> p == [])
    && (Accepting(q) ==> p != [] && IsDigit(p[|p| - 1]))
    && (Dashes(p) == 0 ==> AllDigits(p) && (p != [] ==> q.Number?))
    && (Dashes(p) == 1 ==>
          var d := FirstDash(p);
          0 < d < |p| && AllDigits(p[..d]) && AllDigits(p[d + 1..]) && (q.AfterDash? <==> d + 1 == |p|))
  }

  lemma NextShape(p: string, q: Scan, c: char)
    requires PieceShape(p, q) && !q.Stuck? && c != ',' && !Next(q, c).Stuck?
    ensures PieceShape(p + [c], Next(q, c))
  {
    var r := p + [c];
    assert r[..|p|] == p;
    hide FirstDash;
    if c == '-' {
      assert r[|p| + 1..] == [];
      if Dashes(p) == 0 { DashPlace(r, |p|); }
    } else if Dashes(p) == 1 {
      NextDigitShape(p, c);
    }
  }

  lemma NextDigitShape(p: string, c: char)
    requires FirstDash(p) < |p| && AllDigits(p[..FirstDash(p)])
    ensures FirstDash(p + [c]) == FirstDash(p)
    ensures (p + [c])[..FirstDash(p)] == p[..FirstDash(p)]
    ensures (p + [c])[FirstDash(p) + 1..] == p[FirstDash(p) + 1..] + [c]
  {
    hide FirstDash, AllDigits;
    FirstDashIs(p);
    SlicesOfNext(p, c, FirstDash(p));
    DashPlace(p + [c], FirstDash(p));
  }

  lemma SlicesOfNext(p: string, c: char, d: nat)
    requires d < |p|
    ensures (p + [c])[..d] == p[..d] && (p + [c])[d + 1..] == p[d + 1..] + [c] && (p + [c])[d] == p[d]
  {
  }

  lemma FirstDashIs(p: string)
    ensures FirstDash(p) < |p| ==> p[FirstDash(p)] == '-'
  {
  }

  lemma {:induction false} ScanShape(p: string)
    requires ',' !in p && !ScanFrom(NeedDigit, p).Stuck?
    ensures PieceShape(p, ScanFrom(NeedDigit, p))
  {
    hide PieceShape;
    if p == [] {
      EmptyShape();
    } else {
      var init, c := p[..|p| - 1], p[|p| - 1];
      assert p == init + [c] && c in p;
      ScanShape(init);
      NextShape(init, ScanFrom(NeedDigit, init), c);
    }
  }

  lemma EmptyShape()
    ensures PieceShape("", NeedDigit)
  {
  }

  lemma {:induction false} DigitsHaveNoDash(p: string)
    requires AllDigits(p)
    ensures Dashes(p) == 0
  {
  }

  lemma TwoDashesMalformed(p: string)
    requires Dashes(p) >= 2
    ensures PieceOf(p).Malformed?
  {
    hide DecValue, Dashes, FirstDash;
    if AllDigits(p) { DigitsHaveNoDash(p); }
    if FirstDash(p) < |p| { DashBeyondFirst(p, FirstDash(p)); }
  }

  lemma DashBeyondFirst(p: string, d: nat)
    requires Dashes(p) >= 2 && d < |p| && '-' !in p[..d]
    ensures !AllDigits(p[d + 1..])
  {
    hide Dashes;
    assert p == p[..d] + ([p[d]] + p[d + 1..]);
    DashesConcat(p[..d], [p[d]] + p[d + 1..]);
    DashesConcat([p[d]], p[d + 1..]);
    OneCharDashes(p[d]);
    if AllDigits(p[d + 1..]) { DigitsHaveNoDash(p[d + 1..]); }
  }

  lemma OneCharDashes(c: char)
    ensures Dashes([c]) <= 1
  {
    assert [c][..0] == [];
  }

  /** An accepted piece is a number or a range exactly when it has at most one dash, and it has no spaces at its ends. */
  lemma AcceptedPiece(p: string)
    requires ',' !in p && Accepted(p)
    ensures PieceOf(p).Malformed? <==> Dashes(p) >= 2
    ensures Strip(p) == p && Strip(p + "\n") == p
  {
    hide ScanFrom, Dashes;
    ScanShape(p);
    StripEnds(p);
    hide Strip;
    if Dashes(p) >= 2 { TwoDashesMalformed(p); }
  }

  lemma {:induction false} SplitNoSeparator(s: string, sep: char)
    ensures forall i :: 0 <= i < |Split(s, sep)| ==> sep !in Split(s, sep)[i]
  {
    if s == [] {
    } else {
      SplitNoSeparator(s[..|s| - 1], sep);
    }
  }

  /** The automaton on a text is the automaton on each of its pieces. */
  lemma {:induction false} SplitScan(s: string)
    requires !ScanFrom(NeedDigit, s).Stuck?
    ensures var parts := Split(s, ',');
            && ScanFrom(NeedDigit, parts[|parts| - 1]) == ScanFrom(NeedDigit, s)
            && forall i :: 0 <= i < |parts| - 1 ==> Accepted(parts[i])
  {
    hide ScanFrom, Split;
    if s == [] {
      SplitNone(s, ',');
    } else {
      var init, c := s[..|s| - 1], s[|s| - 1];
      assert s == init + [c];
      ScanOne(NeedDigit, init, c);
      SplitScan(init);
      SplitStep(init, c, ',');
      var parts := Split(init, ',');
      ScanOne(NeedDigit, parts[|parts| - 1], c);
      ScanEmpty(NeedDigit);
    }
  }

  /** Every piece of a valid text, with the newline that may end the last one, is malformed exactly when it has two
      dashes or more. */
  lemma ValidPiece(s: string, i: nat)
    requires IsValidCpuInput(s) && i < |Split(s, ',')|
    ensures PieceOf(Strip(Split(s, ',')[i])).Malformed? <==> Dashes(Split(s, ',')[i]) >= 2
  {
    hide ScanFrom, Split, PieceOf, Strip, Dashes;
    var t := if Accepted(s) then s else s[..|s| - 1];
    var parts := Split(t, ',');
    SplitScan(t);
    SplitNoSeparator(t, ',');
    if Accepted(s) {
      AcceptedPiece(parts[i]);
    } else {
      assert s == t + "\n";
      SplitNewline(t);
      AcceptedPiece(parts[i]);
      DashesConcat(parts[i], "\n");
      NewlineNoDash();
    }
  }

  lemma NewlineNoDash()
    ensures Dashes("\n") == 0
  {
  }

  /** The pattern accepts texts its documentation rules out: a valid text has a piece that is neither a number nor a
      range if and only if one of its pieces has two dashes or more. */
  lemma MalformedExactly(s: string)
    requires IsValidCpuInput(s)
    ensures var parts := Split(s, ',');
            (exists i :: 0 <= i < |parts| && PieceOf(Strip(parts[i])).Malformed?) <==>
            (exists i :: 0 <= i < |parts| && Dashes(parts[i]) >= 2)
  {
    hide Split, PieceOf, Strip, Dashes, IsValidCpuInput;
    forall i | 0 <= i < |Split(s, ',')|
      ensures PieceOf(Strip(Split(s, ',')[i])).Malformed? <==> Dashes(Split(s, ',')[i]) >= 2
    {
      ValidPiece(s, i);
    }
  }

  predicate Backwards(part: string) {
    var p := PieceOf(Strip(part)); p.From? && p.lo > p.hi
  }

  function PieceIds(part: string): seq<nat> {
    match PieceOf(Strip(part))
    case One(id) => [id]
    case From(lo, hi) => Span(lo, hi)
    case Malformed => []
  }

  /** The ids of the pieces with at most one dash. */
  function KeptIds(parts: seq<string>): seq<nat> {
    if parts == [] then []
    else KeptIds(parts[..|parts| - 1]) + if Dashes(parts[|parts| - 1]) >= 2 then [] else PieceIds(parts[|parts| - 1])
  }

  lemma {:induction false} IdsAreKept(parts: seq<string>)
    requires forall i :: 0 <= i < |parts| ==> (PieceOf(Strip(parts[i])).Malformed? <==> Dashes(parts[i]) >= 2)
    ensures Ids(parts) == if exists i :: 0 <= i < |parts| && Backwards(parts[i]) then None else Some(KeptIds(parts))
  {
    hide PieceOf, Strip, Dashes;
    if parts == [] {
    } else {
      var init, last := parts[..|parts| - 1], parts[|parts| - 1];
      IdsAreKept(init);
      assert forall ids: seq<nat> :: ids + [] == ids;
      if i :| 0 <= i < |init| && Backwards(init[i]) { assert Backwards(parts[i]); }
    }
  }

  /** What is read from a valid text: nothing if a range runs backwards, else the ids of the pieces with at most one
      dash, the others being dropped. */
  lemma ReadOfValidText(s: string)
    requires IsValidCpuInput(s)
    ensures var parts := Split(s, ',');
            ConvertToList(s) ==
            if exists i :: 0 <= i < |parts| && Backwards(parts[i]) then [] else KeptIds(parts)
  {
    hide Split, PieceOf, Strip, Dashes, Ids, KeptIds, Backwards;
    forall i | 0 <= i < |Split(s, ',')|
      ensures PieceOf(Strip(Split(s, ',')[i])).Malformed? <==> Dashes(Split(s, ',')[i]) >= 2
    {
      ValidPiece(s, i);
    }
    hide IsValidCpuInput;
    IdsAreKept(Split(s, ','));
  }

  /** The documentation of the validator calls 1-10-20 invalid; the pattern accepts it, and the parser drops it. */
  lemma TwoDashesAccepted()
    ensures IsValidCpuInput("1-10-20") && ConvertToList("1-10-20") == []
  {
    hide ScanFrom, PieceOf, Split, Strip, Ids;
    var s := "1-10-20";
    TwoDashesScan();
    TwoDashesPiece();
    SplitNone(s, ',');
    StripEnds(s);
    IdsOfOne(s);
  }
}
