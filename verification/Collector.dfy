/**
 * The eBPF collector: a two-slot counter window per (disk, stage, type), bounded newest-first histories of
 * period samples, and the server that reads a history at an index computed from a period.
 */
module Collector {
  import opened Numerals
  import opened SlidingWindow

  datatype Counters = Counters(finish: int, latency: int, dump: int)

  const ZERO := Counters(0, 0, 0)

  /** A period: the counters at the tick before and at its own tick. */
  datatype Sample = Sample(prev: Counters, curr: Counters)

  /** What is stored for a period: latency in us, pending dumps, queue length, and operations per second. */
  datatype Stored = Stored(latency: real, dump: int, length: real, iops: real)

  /** A whole number as it is, any other rounded to one decimal, ties to the even digit. */
  function Rounded(v: real): real {
    var tenths := (v * 10.0).Floor;
    var rest := v * 10.0 - tenths as real;
    (if rest < 0.5 || (rest == 0.5 && tenths % 2 == 0) then tenths else tenths + 1) as real / 10.0
  }

  lemma RoundedNear(v: real)
    ensures v - 0.05 <= Rounded(v) <= v + 0.05
    ensures v == v.Floor as real ==> Rounded(v) == v
  {
    var tenths := (v * 10.0).Floor;
    assert 0.0 <= v * 10.0 - tenths as real < 1.0;
    if v == v.Floor as real {
      WholeTenths(v, v.Floor);
    }
  }

  lemma WholeTenths(v: real, n: int)
    requires v == n as real
    ensures (v * 10.0).Floor as real == v * 10.0
  {
    assert v * 10.0 == (10 * n) as real;
  }

  predicate HalfApart(v: real, tenths: int) { v * 10.0 - tenths as real == 0.5 || tenths as real - v * 10.0 == 0.5 }

  /** It is the nearest whole number of tenths, and of two that are equally near the even one. */
  lemma RoundedExactly(v: real, tenths: int)
    ensures Rounded(v) == tenths as real / 10.0 <==>
              && v * 10.0 - 0.5 <= tenths as real <= v * 10.0 + 0.5
              && (HalfApart(v, tenths) ==> tenths % 2 == 0)
  {
    var x := v * 10.0;
    var f := x.Floor;
    var n := if x - f as real < 0.5 || (x - f as real == 0.5 && f % 2 == 0) then f else f + 1;
    assert Rounded(v) == n as real / 10.0;
    assert tenths as real / 10.0 == n as real / 10.0 <==> tenths == n;
    assert 0.0 <= x - f as real < 1.0;
  }

  function LatencyValue(s: Sample): real {
    var finish, time := s.curr.finish - s.prev.finish, s.curr.latency - s.prev.latency;
    if finish <= 0 || time <= 0 then 0.0 else Rounded(time as real / finish as real / 1000.0)
  }

  function DumpValue(s: Sample): int { if s.curr.dump <= 0 then 0 else s.curr.dump }

  function LengthValue(s: Sample, periodTime: int): real
    requires periodTime > 0
  {
    var time := s.curr.latency - s.prev.latency;
    if time <= 0 then 0.0
    else Rounded((time as real / 1000.0) / (periodTime as real * 1000.0 * 1000.0))
  }

  function IopsValue(s: Sample, periodTime: int): real
    requires periodTime > 0
  {
    var finish := s.curr.finish - s.prev.finish;
    if finish <= 0 then 0.0 else Rounded(finish as real / periodTime as real)
  }

  function ValuesOf(s: Sample, periodTime: int): Stored
    requires periodTime > 0
  {
    Stored(LatencyValue(s), DumpValue(s), LengthValue(s, periodTime), IopsValue(s, periodTime))
  }

  function AllValues(samples: seq<Sample>, periodTime: int): (v: seq<Stored>)
    requires periodTime > 0
    ensures |v| == |samples|
  {
    seq(|samples|, i requires 0 <= i < |samples| => ValuesOf(samples[i], periodTime))
  }

  // ----- the run -----

  /** New counters from the kernel side, or the end of a period. */
  datatype Op = Update(counters: Counters) | Tick

  function LastUpdate(ops: seq<Op>): Counters {
    if ops == [] then ZERO
    else if ops[|ops| - 1].Update? then ops[|ops| - 1].counters
    else LastUpdate(ops[..|ops| - 1])
  }

  /** The counters in force at each tick. */
  function TickValues(ops: seq<Op>): seq<Counters> {
    if ops == [] then []
    else
      var before := ops[..|ops| - 1];
      TickValues(before) + if ops[|ops| - 1].Tick? then [LastUpdate(before)] else []
  }

  /** Value number i of a sequence of tick values, the one before the first being zero. */
  function Before(values: seq<Counters>, i: nat): Counters
    requires i <= |values|
  {
    if i == 0 then ZERO else values[i - 1]
  }

  /** One sample for every tick, oldest first. */
  function Samples(values: seq<Counters>): (s: seq<Sample>)
    ensures |s| == |values|
  {
    seq(|values|, i requires 0 <= i < |values| => Sample(Before(values, i), values[i]))
  }

  // ----- the objects -----

  class Cell {
    const maxSave: nat
    const periodTime: int
    var windowValue: seq<Counters>
    var ioData: seq<Stored>
    var dumpData: seq<seq<string>>
    ghost var ops: seq<Op>

    /** The window holds the counters of the last tick and the newest ones; the history holds the values of the newest
        samples. */
    ghost predicate Valid()
      reads this
    {
      var values := TickValues(ops);
      && maxSave >= 1 && periodTime > 0
      && windowValue == [Before(values, |values|), LastUpdate(ops)]
      && ioData == AllValues(Kept(values, maxSave), periodTime)
      && |dumpData| == |ioData|
      && forall i :: 0 <= i < |dumpData| ==> dumpData[i] == []
    }

    constructor (maxSave: nat, periodTime: int)
      requires maxSave >= 1 && periodTime > 0
      ensures Valid() && ops == [] && this.maxSave == maxSave && this.periodTime == periodTime
    {
      this.maxSave, this.periodTime := maxSave, periodTime;
      windowValue, ioData, dumpData, ops := [ZERO, ZERO], [], [], [];
    }

    method UpdateCounters(c: Counters)
      requires Valid()
      modifies this
      ensures Valid() && ops == old(ops) + [Update(c)] && ioData == old(ioData)
    {
      if |windowValue| >= 2 {
        windowValue := windowValue[..|windowValue| - 1];
      }
      windowValue := windowValue + [c];
      ghost var was := ops;
      ops := ops + [Update(c)];
      assert ops[..|ops| - 1] == was;
      assert TickValues(was) + [] == TickValues(was);
    }

    /** The end of a period: one more sample, the window moved on, the oldest sample dropped when full. */
    method AppendPeriod()
      requires Valid()
      modifies this
      ensures Valid() && ops == old(ops) + [Tick]
      ensures ioData != [] && ioData[0] == ValuesOf(Sample(old(windowValue)[0], old(windowValue)[1]), periodTime)
    {
      hide LastUpdate, TickValues, Kept, LatencyValue, DumpValue, LengthValue, IopsValue;
      NextTick(ops);
      NextKept(TickValues(ops), LastUpdate(ops), maxSave);
      if |ioData| >= maxSave {
        ioData := ioData[..|ioData| - 1];
      }
      if |dumpData| >= maxSave {
        dumpData := dumpData[..|dumpData| - 1];
      }
      var curr := windowValue[|windowValue| - 1];
      var prev := windowValue[|windowValue| - 2];
      windowValue := windowValue[1..];
      windowValue := windowValue[..1] + [windowValue[0]] + windowValue[1..];
      assert windowValue == [curr, curr];
      var s := Sample(prev, curr);
      ioData := [Stored(LatencyValue(s), DumpValue(s), LengthValue(s, periodTime), IopsValue(s, periodTime))] + ioData;
      dumpData := [[]] + dumpData;
      ops := ops + [Tick];
    }
  }

  /** The newest samples of a run of ticks, newest first. */
  function Kept(values: seq<Counters>, maxSave: nat): (h: seq<Sample>)
    ensures |h| == if |values| < maxSave then |values| else maxSave
  {
    Reversed(LastN(Samples(values), maxSave))
  }

  lemma KeptAt(values: seq<Counters>, maxSave: nat, i: nat)
    requires i < |Kept(values, maxSave)|
    ensures Kept(values, maxSave)[i] == Sample(Before(values, |values| - 1 - i), values[|values| - 1 - i])
  {
    hide Samples, LastN;
    var s := Samples(values);
    LastAt(s, maxSave, i);
    SampleAt(values, |values| - 1 - i);
  }

  lemma LastAt<T>(s: seq<T>, k: nat, i: nat)
    requires i < |LastN(s, k)|
    ensures LastN(s, k)[|LastN(s, k)| - 1 - i] == s[|s| - 1 - i]
  {
  }

  lemma SampleAt(values: seq<Counters>, i: nat)
    requires i < |values|
    ensures Samples(values)[i] == Sample(Before(values, i), values[i])
  {
  }

  lemma NextTick(ops: seq<Op>)
    ensures LastUpdate(ops + [Tick]) == LastUpdate(ops)
    ensures TickValues(ops + [Tick]) == TickValues(ops) + [LastUpdate(ops)]
  {
    assert (ops + [Tick])[..|ops|] == ops;
  }

  lemma NextKept(values: seq<Counters>, v: Counters, maxSave: nat)
    requires maxSave >= 1
    ensures var kept := Kept(values, maxSave);
            Kept(values + [v], maxSave) ==
            [Sample(Before(values, |values|), v)] + if |kept| >= maxSave then kept[..|kept| - 1] else kept
  {
    hide Reversed, LastN;
    var s := Sample(Before(values, |values|), v);
    assert Samples(values + [v]) == Samples(values) + [s];
    PushLastN(Samples(values), maxSave, s);
    ReversedPush(LastN(Samples(values), maxSave), s);
  }

  // ----- what the samples add up to -----

  function SumFinish(s: seq<Sample>): int {
    if s == [] then 0 else SumFinish(s[..|s| - 1]) + (s[|s| - 1].curr.finish - s[|s| - 1].prev.finish)
  }

  function SumLatency(s: seq<Sample>): int {
    if s == [] then 0 else SumLatency(s[..|s| - 1]) + (s[|s| - 1].curr.latency - s[|s| - 1].prev.latency)
  }

  /** Over any interleaving of updates and ticks, nothing is counted twice and nothing is lost between ticks: the
      deltas of all periods add up to the counters seen at the last tick. */
  lemma {:induction false} DeltasTelescope(values: seq<Counters>)
    ensures SumFinish(Samples(values)) == Before(values, |values|).finish
    ensures SumLatency(Samples(values)) == Before(values, |values|).latency
  {
    if values == [] {
    } else {
      var n := |values| - 1;
      DeltasTelescope(values[..n]);
      assert Samples(values)[..n] == Samples(values[..n]);
      assert Before(values, n) == Before(values[..n], n);
    }
  }

  /** The stored periods are consecutive: each begins with the counters the older one ended with. */
  lemma StoredPeriodsConsecutive(values: seq<Counters>, maxSave: nat, i: nat)
    requires i + 1 < |Kept(values, maxSave)|
    ensures Kept(values, maxSave)[i].prev == Kept(values, maxSave)[i + 1].curr
  {
    hide Kept;
    KeptAt(values, maxSave, i);
    KeptAt(values, maxSave, i + 1);
  }

  /** The counters only grow. */
  ghost predicate Growing(values: seq<Counters>) {
    forall i :: 0 <= i < |values| ==>
      Before(values, i).finish <= values[i].finish && Before(values, i).latency <= values[i].latency
  }

  function TotalIops(v: seq<Stored>): real {
    if v == [] then 0.0 else TotalIops(v[..|v| - 1]) + v[|v| - 1].iops
  }

  function TotalLength(v: seq<Stored>): real {
    if v == [] then 0.0 else TotalLength(v[..|v| - 1]) + v[|v| - 1].length
  }

  /** Apart from what rounding to one decimal adds or takes in that many periods. */
  predicate Within(sum: real, exact: real, periods: nat) {
    exact - 0.05 * periods as real <= sum <= exact + 0.05 * periods as real
  }

  lemma QuotientSum(x: real, y: real, p: real)
    requires p > 0.0
    ensures x / p + y / p == (x + y) / p
  {
  }

  lemma AddWithin(total: real, one: real, x: real, y: real, p: real, n: nat)
    requires p > 0.0 && Within(total, x / p, n) && Within(one, y / p, 1)
    ensures Within(total + one, (x + y) / p, n + 1)
  {
    QuotientSum(x, y, p);
  }

  lemma IopsNear(s: Sample, periodTime: int)
    requires periodTime > 0 && s.prev.finish <= s.curr.finish
    ensures Within(IopsValue(s, periodTime), (s.curr.finish - s.prev.finish) as real / periodTime as real, 1)
  {
    RoundedNear((s.curr.finish - s.prev.finish) as real / periodTime as real);
    hide Rounded;
  }

  lemma LengthNear(s: Sample, periodTime: int, microseconds: real)
    requires periodTime > 0 && s.prev.latency <= s.curr.latency
    requires microseconds == periodTime as real * 1000.0 * 1000.0
    ensures Within(LengthValue(s, periodTime), (s.curr.latency - s.prev.latency) as real / 1000.0 / microseconds, 1)
  {
    RoundedNear((s.curr.latency - s.prev.latency) as real / 1000.0 / microseconds);
    hide Rounded;
  }

  lemma LastValues(values: seq<Counters>, periodTime: int)
    requires periodTime > 0 && values != []
    ensures var n := |values| - 1;
            var v, w := AllValues(Samples(values), periodTime), AllValues(Samples(values[..n]), periodTime);
            var s := Sample(Before(values, n), values[n]);
            && TotalIops(v) == TotalIops(w) + IopsValue(s, periodTime)
            && TotalLength(v) == TotalLength(w) + LengthValue(s, periodTime)
            && Before(values[..n], n) == Before(values, n)
  {
    hide LatencyValue, LengthValue, IopsValue, DumpValue;
    var n := |values| - 1;
    var v, w := AllValues(Samples(values), periodTime), AllValues(Samples(values[..n]), periodTime);
    assert v[..n] == w;
  }

  lemma GrowingPrefix(values: seq<Counters>)
    requires Growing(values) && values != []
    ensures Growing(values[..|values| - 1])
    ensures Before(values, |values| - 1).finish <= values[|values| - 1].finish
    ensures Before(values, |values| - 1).latency <= values[|values| - 1].latency
  {
    var init := values[..|values| - 1];
    assert forall i :: 0 <= i < |init| ==> Before(init, i) == Before(values, i);
  }

  /** While the counters only grow, the stored values account for everything: the operations per second of all periods
      add up to the operations finished over the period, but for rounding. */
  lemma {:induction false} IopsAccount(values: seq<Counters>, periodTime: int)
    requires periodTime > 0 && Growing(values)
    ensures Within(TotalIops(AllValues(Samples(values), periodTime)),
                   Before(values, |values|).finish as real / periodTime as real, |values|)
  {
    hide AllValues, Samples, TotalLength, Growing, IopsValue, LengthValue;
    if values == [] {
      NothingStored(values, periodTime);
    } else {
      var n := |values| - 1;
      GrowingPrefix(values);
      IopsAccount(values[..n], periodTime);
      LastValues(values, periodTime);
      var s := Sample(Before(values, n), values[n]);
      IopsNear(s, periodTime);
      hide TotalIops;
      AddWithin(TotalIops(AllValues(Samples(values[..n]), periodTime)), IopsValue(s, periodTime),
                s.prev.finish as real, (s.curr.finish - s.prev.finish) as real, periodTime as real, n);
    }
  }

  /** And the queue lengths of all periods add up to the time spent over the period, both in us. */
  lemma {:induction false} LengthAccount(values: seq<Counters>, periodTime: int, microseconds: real)
    requires periodTime > 0 && Growing(values) && microseconds == periodTime as real * 1000.0 * 1000.0
    ensures Within(TotalLength(AllValues(Samples(values), periodTime)),
                   Before(values, |values|).latency as real / 1000.0 / microseconds, |values|)
  {
    hide AllValues, Samples, TotalIops, Growing, IopsValue, LengthValue;
    if values == [] {
      NothingStored(values, periodTime);
    } else {
      var n := |values| - 1;
      GrowingPrefix(values);
      LengthAccount(values[..n], periodTime, microseconds);
      LastValues(values, periodTime);
      var s := Sample(Before(values, n), values[n]);
      LengthNear(s, periodTime, microseconds);
      hide TotalLength;
      AddWithin(TotalLength(AllValues(Samples(values[..n]), periodTime)), LengthValue(s, periodTime),
                s.prev.latency as real / 1000.0, (s.curr.latency - s.prev.latency) as real / 1000.0, microseconds, n);
    }
  }

  /** The dumps stored are those pending at the tick, whatever they were before; a negative number counts as none. */
  lemma DumpMeans(s: Sample, dumps: nat)
    ensures DumpValue(s) == dumps <==> s.curr.dump == dumps || (dumps == 0 && s.curr.dump < 0)
  {
  }

  /** The latency stored for a period is the time spent for each operation finished in it, in us, but for rounding. */
  lemma LatencyMeans(s: Sample)
    requires s.prev.finish < s.curr.finish && s.prev.latency <= s.curr.latency
    ensures var finished, time := (s.curr.finish - s.prev.finish) as real, (s.curr.latency - s.prev.latency) as real;
            time / 1000.0 - 0.05 * finished <= LatencyValue(s) * finished <= time / 1000.0 + 0.05 * finished
  {
    var finished, time := (s.curr.finish - s.prev.finish) as real, (s.curr.latency - s.prev.latency) as real;
    var exact := time / finished / 1000.0;
    LatencyNear(s, exact);
    hide LatencyValue;
    NearProduct(LatencyValue(s), time, finished, exact);
  }

  lemma NearProduct(v: real, time: real, finished: real, exact: real)
    requires finished > 0.0 && time >= 0.0 && exact == time / finished / 1000.0
    requires if time == 0.0 then v == 0.0 else exact - 0.05 <= v <= exact + 0.05
    ensures time / 1000.0 - 0.05 * finished <= v * finished <= time / 1000.0 + 0.05 * finished
  {
    ThousandthTimes(time, finished, exact);
    if time > 0.0 {
      ScaledNear(v, exact, finished, time / 1000.0);
    } else {
      NothingTimes(finished);
    }
  }

  lemma LatencyNear(s: Sample, exact: real)
    requires s.prev.finish < s.curr.finish && s.prev.latency <= s.curr.latency
    requires exact == (s.curr.latency - s.prev.latency) as real / (s.curr.finish - s.prev.finish) as real / 1000.0
    ensures if s.prev.latency == s.curr.latency then LatencyValue(s) == 0.0
            else exact - 0.05 <= LatencyValue(s) <= exact + 0.05
  {
    RoundedNear(exact);
    hide Rounded;
  }

  lemma NothingTimes(n: real)
    ensures 0.0 * n == 0.0
  {
  }

  lemma ThousandthTimes(time: real, finished: real, exact: real)
    requires finished > 0.0 && exact == time / finished / 1000.0
    ensures exact * finished == time / 1000.0
  {
    assert time / finished * finished == time;
  }

  lemma ScaledNear(v: real, exact: real, n: real, product: real)
    requires n > 0.0 && exact - 0.05 <= v <= exact + 0.05 && product == exact * n
    ensures product - 0.05 * n <= v * n <= product + 0.05 * n
  {
    var low, high := v - exact + 0.05, exact + 0.05 - v;
    NonNegativeProduct(low, n);
    NonNegativeProduct(high, n);
    assert low * n == v * n - exact * n + 0.05 * n && high * n == exact * n + 0.05 * n - v * n;
  }

  lemma NonNegativeProduct(a: real, b: real)
    requires a >= 0.0 && b >= 0.0
    ensures a * b >= 0.0
  {
  }

  /** The latency of each period times what it finished. */
  function TotalLatency(samples: seq<Sample>): real {
    if samples == [] then 0.0
    else
      var s := samples[|samples| - 1];
      TotalLatency(samples[..|samples| - 1]) + LatencyValue(s) * (s.curr.finish - s.prev.finish) as real
  }

  /** The counters grow, and time only passes in periods that finish something. */
  ghost predicate Busy(values: seq<Counters>) {
    && Growing(values)
    && forall i :: 0 <= i < |values| ==>
         (Before(values, i).finish < values[i].finish || Before(values, i).latency == values[i].latency)
  }

  lemma BusyPrefix(values: seq<Counters>)
    requires Busy(values) && values != []
    ensures Busy(values[..|values| - 1])
    ensures var n := |values| - 1;
            && (Before(values, n).finish < values[n].finish || Before(values, n).latency == values[n].latency)
            && Before(values, n).finish <= values[n].finish && Before(values, n).latency <= values[n].latency
  {
    GrowingPrefix(values);
    var init := values[..|values| - 1];
    assert forall i :: 0 <= i < |init| ==> Before(init, i) == Before(values, i);
  }

  lemma OneLatency(s: Sample)
    requires s.prev.finish <= s.curr.finish && s.prev.latency <= s.curr.latency
    requires s.prev.finish < s.curr.finish || s.prev.latency == s.curr.latency
    ensures NearTime(LatencyValue(s) * (s.curr.finish - s.prev.finish) as real, s.curr.latency - s.prev.latency,
                     s.curr.finish - s.prev.finish)
  {
    if s.prev.finish < s.curr.finish {
      LatencyMeans(s);
      hide LatencyValue;
    }
  }

  /** And in such a run the latencies, each for the operations finished in its period, add up to the time spent. */
  lemma {:induction false} LatencyAccount(values: seq<Counters>)
    requires Busy(values)
    ensures var last := Before(values, |values|);
            NearTime(TotalLatency(Samples(values)), last.latency, last.finish)
  {
    hide LatencyValue, Busy, Growing;
    if values == [] {
      assert Samples(values) == [];
    } else {
      var n := |values| - 1;
      BusyPrefix(values);
      LatencyAccount(values[..n]);
      assert Samples(values)[..n] == Samples(values[..n]) && Before(values, n) == Before(values[..n], n);
      var s := Sample(Before(values, n), values[n]);
      OneLatency(s);
      var before, one := TotalLatency(Samples(values[..n])), LatencyValue(s) * (s.curr.finish - s.prev.finish) as real;
      assert TotalLatency(Samples(values)) == before + one;
      hide TotalLatency;
      MoreTime(before, one, s);
    }
  }

  /** The time is accounted for, in us, but for rounding each operation. */
  predicate NearTime(total: real, latency: int, finish: int) {
    latency as real / 1000.0 - 0.05 * finish as real <= total <= latency as real / 1000.0 + 0.05 * finish as real
  }

  lemma MoreTime(total: real, one: real, s: Sample)
    requires NearTime(total, s.prev.latency, s.prev.finish)
    requires NearTime(one, s.curr.latency - s.prev.latency, s.curr.finish - s.prev.finish)
    ensures NearTime(total + one, s.curr.latency, s.curr.finish)
  {
  }

  lemma NothingStored(values: seq<Counters>, periodTime: int)
    requires values == [] && periodTime > 0
    ensures TotalIops(AllValues(Samples(values), periodTime)) == 0.0
    ensures TotalLength(AllValues(Samples(values), periodTime)) == 0.0
  {
  }

  // ----- the server -----

  type Stages<V> = map<string, map<string, V>>

  predicate InvalidPeriod(period: int, periodTime: int, maxSave: int)
    requires periodTime > 0
  {
    period < periodTime || period > periodTime * maxSave || period % periodTime != 0
  }

  function TypesAt<V>(data: map<string, seq<V>>, types: seq<string>, index: nat): map<string, V> {
    map t | t in data && t in types && index < |data[t]| :: data[t][index]
  }

  function StagesAt<V>(data: map<string, map<string, seq<V>>>, stages: seq<string>, types: seq<string>, index: nat)
    : Stages<V>
  {
    map s | s in data && (stages == [] || s in stages) :: TypesAt(data[s], types, index)
  }

  function DisksAt<V>(source: map<string, map<string, map<string, seq<V>>>>, disks: seq<string>, stages: seq<string>,
                      types: seq<string>, index: nat): map<string, Stages<V>>
  {
    map d | d in source && d in disks :: StagesAt(source[d], stages, types, index)
  }

  method CollectTypes<V>(data: map<string, seq<V>>, types: seq<string>, index: nat) returns (result: map<string, V>)
    ensures result == TypesAt(data, types, index)
  {
    result := map[];
    var todo := data.Keys;
    while todo != {}
      invariant todo <= data.Keys
      invariant result == map t | t in data && t !in todo && t in types && index < |data[t]| :: data[t][index]
      decreases |todo|
    {
      var t :| t in todo;
      todo := todo - {t};
      if t !in types { continue; }
      if |data[t]| - 1 < index { continue; }
      result := result[t := data[t][index]];
    }
  }

  method CollectStages<V>(data: map<string, map<string, seq<V>>>, stages: seq<string>, types: seq<string>, index: nat)
    returns (result: Stages<V>)
    ensures result == StagesAt(data, stages, types, index)
  {
    hide TypesAt;
    result := map[];
    var todo := data.Keys;
    while todo != {}
      invariant todo <= data.Keys
      invariant result ==
                map s | s in data && s !in todo && (stages == [] || s in stages) :: TypesAt(data[s], types, index)
      decreases |todo|
    {
      var s :| s in todo;
      todo := todo - {s};
      if |stages| > 0 && s !in stages { continue; }
      var one := CollectTypes(data[s], types, index);
      result := result[s := one];
    }
  }

  /** get_io_common; an empty result is the answer to every invalid request, and to any before the start. */
  method GetIoCommon<V>(source: map<string, map<string, map<string, seq<V>>>>, config: Option<(int, int)>, period: int,
                        disks: seq<string>, stages: seq<string>, types: seq<string>)
    returns (result: map<string, Stages<V>>)
    requires config.Some? ==> config.value.0 > 0
    ensures result ==
            if config == None || InvalidPeriod(period, config.value.0, config.value.1) then map[]
            else DisksAt(source, disks, stages, types, period / config.value.0 - 1)
  {
    hide StagesAt;
    result := map[];
    if config == None { return; }
    var (periodTime, maxSave) := config.value;
    if InvalidPeriod(period, periodTime, maxSave) { return; }
    PeriodIndex(period, periodTime, maxSave);
    var index := period / periodTime - 1;
    var todo := source.Keys;
    while todo != {}
      invariant todo <= source.Keys
      invariant result == map d | d in source && d !in todo && d in disks :: StagesAt(source[d], stages, types, index)
      decreases |todo|
    {
      var d :| d in todo;
      todo := todo - {d};
      if d !in disks { continue; }
      var one := CollectStages(source[d], stages, types, index);
      result := result[d := one];
    }
  }

  /** An answer holds a value exactly for the disks and types asked for, the stages asked for or all of them, and the
      histories that are long enough, and it is the one at the index. */
  lemma AnswerExactly<V>(source: map<string, map<string, map<string, seq<V>>>>, disks: seq<string>,
                         stages: seq<string>, types: seq<string>, index: nat, d: string, s: string, t: string)
    ensures var r := DisksAt(source, disks, stages, types, index);
            && (d in r <==> d in source && d in disks)
            && (d in r && s in r[d] <==>
                  d in source && d in disks && s in source[d] && (s in stages || stages == []))
            && (d in r && s in r[d] && t in r[d][s] <==>
                  && d in source && d in disks && s in source[d] && (s in stages || stages == [])
                  && t in source[d][s] && t in types && |source[d][s][t]| > index)
            && (d in r && s in r[d] && t in r[d][s] ==> r[d][s][t] == source[d][s][t][index])
  {
  }

  /** The periods that can be asked for are the whole multiples of the period, up to the number that is kept. */
  lemma ValidPeriodExactly(period: int, periodTime: int, maxSave: int)
    requires periodTime > 0
    ensures !InvalidPeriod(period, periodTime, maxSave) <==>
              exists k :: 1 <= k <= maxSave && period == Times(periodTime, k)
  {
    if !InvalidPeriod(period, periodTime, maxSave) {
      PeriodIndex(period, periodTime, maxSave);
      assert period == Times(periodTime, period / periodTime);
    } else if k :| 1 <= k <= maxSave && period == Times(periodTime, k) {
      MultipleIsValid(periodTime, k, maxSave, period);
    }
  }

  function Times(periodTime: int, k: int): int { periodTime * k }

  lemma MultipleIsValid(p: int, k: int, maxSave: int, period: int)
    requires p > 0 && 1 <= k <= maxSave && period == p * k
    ensures !InvalidPeriod(period, p, maxSave)
  {
    assert p * k - p == p * (k - 1) && p * maxSave - p * k == p * (maxSave - k);
    ProductOfNaturals(p, k - 1);
    ProductOfNaturals(p, maxSave - k);
    DivUnique(period, p, k, 0);
  }

  /** A valid period is k whole periods, 1 <= k <= maxSave. */
  lemma PeriodIndex(period: int, periodTime: int, maxSave: int)
    requires periodTime > 0 && !InvalidPeriod(period, periodTime, maxSave)
    ensures period == periodTime * (period / periodTime) && 1 <= period / periodTime <= maxSave
  {
    var k := period / periodTime;
    assert period == periodTime * k;
    ScaleOrder(periodTime, k, maxSave);
    ScaleOrder(periodTime, 1, k);
  }

  lemma ScaleOrder(p: int, a: int, b: int)
    requires p > 0 && p * a <= p * b
    ensures a <= b
  {
  }

  /** A request for k periods is answered with the values of the sample taken k - 1 ticks before the newest, as long as
      that many are kept; otherwise the entry is missing. */
  lemma RequestedSample(values: seq<Counters>, maxSave: nat, periodTime: int, data: map<string, seq<Stored>>,
                        kind: string, types: seq<string>, k: nat)
    requires maxSave >= 1 && periodTime > 0 && k >= 1 && kind in types && kind in data
    requires data[kind] == AllValues(Kept(values, maxSave), periodTime)
    ensures var r := TypesAt(data, types, k - 1);
            && (kind in r <==> k <= |values| && k <= maxSave)
            && (kind in r ==>
                  r[kind] == ValuesOf(Sample(Before(values, |values| - k), values[|values| - k]), periodTime))
  {
    hide Kept, ValuesOf;
    if k <= |values| && k <= maxSave { KeptAt(values, maxSave, k - 1); }
  }
}
