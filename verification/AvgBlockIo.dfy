/** The averaging slow-IO detector: one running average and two verdict windows for each (disk, stage, type). */
module AvgBlockIo {
  import opened Numerals
  import opened SlidingWindow

  /** The values of one period for one key. */
  datatype Sample = Sample(latency: real, dump: real)

  /** When a window calls a period abnormal: latency windows compare with the average, dump windows do not. */
  datatype Rule = Latency(multiple: real, lim: real, totLim: real) | Dump(time: real)

  function Pick(rule: Rule, s: Sample): real { if rule.Latency? then s.latency else s.dump }

  predicate AbnormalPeriod(rule: Rule, value: real, avg: real) {
    match rule
    case Latency(multiple, lim, totLim) => (value > avg * multiple && value > lim) || value > totLim
    case Dump(time) => value > time
  }

  // ----- the average and the verdicts as functions of the periods seen -----

  /** The average of count + 1 values, from that of count values and one more. */
  function Extend(avg: real, count: nat, value: real): real {
    (avg * count as real + value) / (count + 1) as real
  }

  /** The average after the periods h; size periods are needed before any of them is judged. A key without a
      latency window keeps the average of the warm-up. */
  function Average(size: nat, latency: Option<Rule>, h: seq<Sample>): real {
    if h == [] then 0.0
    else
      var n := |h| - 1;
      var before, value := Average(size, latency, h[..n]), h[n].latency;
      if n < size then Extend(before, n, value)
      else if size == 0 || latency == None || AbnormalPeriod(latency.value, value, before) then before
      else Extend(before, size - 1, value)
  }

  /** What a window with this rule says about each period after the warm-up. */
  function Verdicts(size: nat, latency: Option<Rule>, rule: Rule, h: seq<Sample>): (v: seq<bool>)
    ensures |v| == if |h| <= size then 0 else |h| - size
  {
    if |h| <= size then []
    else
      var n := |h| - 1;
      Verdicts(size, latency, rule, h[..n]) +
      [AbnormalPeriod(rule, Pick(rule, h[n]), Average(size, latency, h[..n]))]
  }

  function Falses(n: nat): (s: seq<bool>)
    ensures |s| == n
  {
    seq(n, _ => false)
  }

  /** The last size verdicts, the ones before the first of them being false. */
  function VerdictWindow(size: nat, latency: Option<Rule>, rule: Rule, h: seq<Sample>): seq<bool> {
    LastN(Falses(size) + Verdicts(size, latency, rule, h), size)
  }

  /** The last size values for the window, the ones before the first period being -1. */
  function DataWindow(size: nat, rule: Rule, h: seq<Sample>): (d: seq<real>)
    ensures |d| == size
  {
    LastN(seq(size, _ => -1.0) + Values(rule, h), size)
  }

  function Values(rule: Rule, h: seq<Sample>): (v: seq<real>)
    ensures |v| == |h|
  {
    seq(|h|, i requires 0 <= i < |h| => Pick(rule, h[i]))
  }

  lemma NextData(size: nat, rule: Rule, h: seq<Sample>, s: Sample)
    requires size >= 1
    ensures DataWindow(size, rule, h + [s]) == DataWindow(size, rule, h)[1..] + [Pick(rule, s)]
  {
    var all := seq(size, _ => -1.0) + Values(rule, h);
    assert seq(size, _ => -1.0) + Values(rule, h + [s]) == all + [Pick(rule, s)];
    PushLastN(all, size, Pick(rule, s));
  }

  lemma NextVerdict(size: nat, latency: Option<Rule>, rule: Rule, h: seq<Sample>, s: Sample)
    ensures Verdicts(size, latency, rule, h + [s]) ==
            Verdicts(size, latency, rule, h) +
            if |h| < size then [] else [AbnormalPeriod(rule, Pick(rule, s), Average(size, latency, h))]
  {
    hide Average, AbnormalPeriod;
    assert (h + [s])[..|h|] == h;
  }

  lemma NextPeriod(size: nat, latency: Option<Rule>, rule: Rule, h: seq<Sample>, s: Sample)
    requires size >= 1
    ensures VerdictWindow(size, latency, rule, h + [s]) ==
            if |h| < size then VerdictWindow(size, latency, rule, h)
            else VerdictWindow(size, latency, rule, h)[1..] +
                 [AbnormalPeriod(rule, Pick(rule, s), Average(size, latency, h))]
  {
    hide Average, AbnormalPeriod, Verdicts, LastN;
    NextVerdict(size, latency, rule, h, s);
    var all := Falses(size) + Verdicts(size, latency, rule, h);
    if |h| < size {
      assert Verdicts(size, latency, rule, h + [s]) == Verdicts(size, latency, rule, h);
    } else {
      var v := AbnormalPeriod(rule, Pick(rule, s), Average(size, latency, h));
      assert Falses(size) + Verdicts(size, latency, rule, h + [s]) == all + [v];
      PushLastN(all, size, v);
    }
  }

  lemma NextAverage(size: nat, latency: Option<Rule>, h: seq<Sample>, s: Sample)
    requires size >= 1
    ensures Average(size, latency, h + [s]) ==
            var before := Average(size, latency, h);
            if |h| < size then Extend(before, |h|, s.latency)
            else if latency == None || AbnormalPeriod(latency.value, s.latency, before) then before
            else Extend(before, size - 1, s.latency)
  {
    hide Extend, AbnormalPeriod;
    assert (h + [s])[..|h|] == h;
  }

  // ----- the objects -----

  class AbnormalWindow {
    const windowSize: nat
    const windowThreshold: int
    const rule: Rule
    var abnormalWindow: seq<bool>
    var windowData: seq<real>

    constructor (windowSize: nat, windowThreshold: int, rule: Rule)
      ensures this.windowSize == windowSize && this.windowThreshold == windowThreshold && this.rule == rule
      ensures abnormalWindow == Falses(windowSize) && windowData == seq(windowSize, _ => -1.0)
    {
      this.windowSize, this.windowThreshold, this.rule := windowSize, windowThreshold, rule;
      abnormalWindow, windowData := Falses(windowSize), seq(windowSize, _ => -1.0);
    }

    method AppendNewData(value: real)
      requires windowData != []
      modifies this`windowData
      ensures windowData == old(windowData)[1..] + [value]
    {
      windowData := windowData[1..];
      windowData := windowData + [value];
    }

    method AppendNewPeriod(value: real, avg: real)
      requires abnormalWindow != []
      modifies this`abnormalWindow
      ensures abnormalWindow == old(abnormalWindow)[1..] + [AbnormalPeriod(rule, value, avg)]
    {
      abnormalWindow := abnormalWindow[1..];
      if AbnormalPeriod(rule, value, avg) {
        abnormalWindow := abnormalWindow + [true];
      } else {
        abnormalWindow := abnormalWindow + [false];
      }
    }

    method IsAbnormalWindow() returns (abnormal: bool)
      ensures abnormal <==> CountTrue(abnormalWindow) >= windowThreshold
    {
      var sum := 0;
      for i := 0 to |abnormalWindow|
        invariant sum == CountTrue(abnormalWindow[..i])
      {
        assert abnormalWindow[..i + 1][..i] == abnormalWindow[..i];
        sum := sum + if abnormalWindow[i] then 1 else 0;
      }
      assert abnormalWindow[..|abnormalWindow|] == abnormalWindow;
      abnormal := sum >= windowThreshold;
    }
  }

  class Key {
    const winSize: nat
    const latency: AbnormalWindow?
    const dump: AbnormalWindow?
    var avgValue: real
    var avgCount: nat
    ghost var history: seq<Sample>

    ghost function LatencyRule(): Option<Rule> { if latency == null then None else Some(latency.rule) }

    /** The state is a function of the periods seen. */
    ghost predicate Valid()
      reads this, latency, dump
    {
      && winSize >= 1
      && avgCount == (if |history| < winSize then |history| else winSize)
      && avgValue == Average(winSize, LatencyRule(), history)
      && (latency != null ==>
            latency.rule.Latency? && latency != dump &&
            latency.windowData == DataWindow(winSize, latency.rule, history) &&
            latency.abnormalWindow == VerdictWindow(winSize, LatencyRule(), latency.rule, history))
      && (dump != null ==>
            dump.rule.Dump? && dump.windowData == DataWindow(winSize, dump.rule, history) &&
            dump.abnormalWindow == VerdictWindow(winSize, LatencyRule(), dump.rule, history))
    }

    constructor (winSize: nat, latency: AbnormalWindow?, dump: AbnormalWindow?)
      requires winSize >= 1
      requires latency != null ==> latency.windowSize == winSize && latency.rule.Latency? && latency != dump &&
                                   latency.abnormalWindow == Falses(winSize) &&
                                   latency.windowData == seq(winSize, _ => -1.0)
      requires dump != null ==> dump.windowSize == winSize && dump.rule.Dump? &&
                                dump.abnormalWindow == Falses(winSize) && dump.windowData == seq(winSize, _ => -1.0)
      ensures Valid() && history == []
      ensures this.winSize == winSize && this.latency == latency && this.dump == dump
    {
      this.winSize, this.latency, this.dump := winSize, latency, dump;
      avgValue, avgCount, history := 0.0, 0, [];
      new;
      assert Falses(winSize) + [] == Falses(winSize);
      assert forall rule :: seq(winSize, _ => -1.0) + Values(rule, []) == seq(winSize, _ => -1.0);
    }

    method UpdateIoAvg(value: real)
      requires winSize >= 1
      modifies this`avgValue, this`avgCount
      ensures avgCount == if old(avgCount) < winSize then old(avgCount) + 1 else old(avgCount)
      ensures old(avgCount) < winSize ==> avgValue == Extend(old(avgValue), old(avgCount), value)
      ensures old(avgCount) == winSize ==> avgValue == Extend(old(avgValue), winSize - 1, value)
    {
      if avgCount < winSize {
        avgValue := (avgValue * avgCount as real + value) / (avgCount + 1) as real;
        avgCount := avgCount + 1;
      } else {
        avgValue := (avgValue * (avgCount - 1) as real + value) / avgCount as real;
      }
    }

    method UpdateIoData(s: Sample)
      requires latency != null ==> latency.windowData != []
      requires dump != null ==> dump.windowData != []
      requires latency != null ==> latency != dump
      modifies if latency == null then {} else {latency}, if dump == null then {} else {dump}
      ensures latency != null ==> latency.abnormalWindow == old(latency.abnormalWindow) &&
                                  latency.windowData == old(latency.windowData)[1..] + [s.latency]
      ensures dump != null ==> dump.abnormalWindow == old(dump.abnormalWindow) &&
                               dump.windowData == old(dump.windowData)[1..] + [s.dump]
    {
      if latency != null { latency.AppendNewData(s.latency); }
      if dump != null { dump.AppendNewData(s.dump); }
    }

    method UpdateIoPeriod(s: Sample)
      requires latency != null ==> latency.abnormalWindow != []
      requires dump != null ==> dump.abnormalWindow != []
      requires latency != null ==> latency != dump
      modifies if latency == null then {} else {latency}, if dump == null then {} else {dump}
      ensures latency != null ==> latency.windowData == old(latency.windowData) &&
                                  latency.abnormalWindow == old(latency.abnormalWindow)[1..] +
                                                            [AbnormalPeriod(latency.rule, s.latency, avgValue)]
      ensures dump != null ==> dump.windowData == old(dump.windowData) &&
                               dump.abnormalWindow == old(dump.abnormalWindow)[1..] +
                                                      [AbnormalPeriod(dump.rule, s.dump, avgValue)]
    {
      if latency != null { latency.AppendNewPeriod(s.latency, avgValue); }
      if dump != null { dump.AppendNewPeriod(s.dump, avgValue); }
    }

    /** One more period; true once the warm-up is over. The dump window ignores the average it is passed. */
    method UpdateAvgAndCheckAbnormal(s: Sample) returns (reached: bool)
      requires Valid()
      modifies this, if latency == null then {} else {latency}, if dump == null then {} else {dump}
      ensures Valid() && history == old(history) + [s]
      ensures reached <==> |old(history)| >= winSize
    {
      hide Average, VerdictWindow, DataWindow, AbnormalPeriod, Extend;
      NextAverage(winSize, LatencyRule(), history, s);
      if latency != null {
        NextPeriod(winSize, LatencyRule(), latency.rule, history, s);
        NextData(winSize, latency.rule, history, s);
      }
      if dump != null {
        NextPeriod(winSize, LatencyRule(), dump.rule, history, s);
        NextData(winSize, dump.rule, history, s);
      }
      WindowFull(winSize, LatencyRule(), history);
      UpdateIoData(s);
      history := history + [s];
      if avgCount < winSize {
        UpdateIoAvg(s.latency);
        return false;
      }
      UpdateIoPeriod(s);
      reached := true;
      if latency == null { return; }
      if AbnormalPeriod(latency.rule, s.latency, avgValue) { return; }
      UpdateIoAvg(s.latency);
    }
  }

  lemma WindowFull(size: nat, latency: Option<Rule>, h: seq<Sample>)
    ensures forall rule :: |VerdictWindow(size, latency, rule, h)| == size
  {
  }

  // ----- what the average is -----

  function Sum(h: seq<Sample>): real {
    if h == [] then 0.0 else Sum(h[..|h| - 1]) + h[|h| - 1].latency
  }

  /** During the warm-up the average is the exact mean. */
  lemma {:induction false} WarmUpMean(size: nat, latency: Option<Rule>, h: seq<Sample>)
    requires 1 <= |h| <= size
    ensures Average(size, latency, h) * |h| as real == Sum(h)
  {
    var n := |h| - 1;
    if n >= 1 {
      WarmUpMean(size, latency, h[..n]);
    } else {
      assert h[..0] == [];
    }
    ExtendProduct(Average(size, latency, h[..n]), n, h[n].latency);
  }

  lemma ExtendProduct(avg: real, count: nat, value: real)
    ensures Extend(avg, count, value) * (count + 1) as real == avg * count as real + value
  {
  }

  /** The run without the periods the latency window flags. */
  function Kept(size: nat, rule: Rule, h: seq<Sample>): (k: seq<Sample>)
    ensures |k| <= |h| && (|h| >= size ==> |k| >= size)
  {
    if |h| <= size then h
    else
      var n := |h| - 1;
      Kept(size, rule, h[..n]) +
      if AbnormalPeriod(rule, h[n].latency, Average(size, Some(rule), h[..n])) then [] else [h[n]]
  }

  /** The average is that of the same run with the flagged periods deleted, and in that run none is flagged. */
  lemma {:induction false} AverageIgnoresFlagged(size: nat, rule: Rule, h: seq<Sample>)
    requires size >= 1 && rule.Latency?
    ensures Average(size, Some(rule), Kept(size, rule, h)) == Average(size, Some(rule), h)
    ensures forall i :: 0 <= i < |Verdicts(size, Some(rule), rule, Kept(size, rule, h))| ==>
              !Verdicts(size, Some(rule), rule, Kept(size, rule, h))[i]
  {
    hide Extend, AbnormalPeriod;
    if |h| <= size {
    } else {
      var n := |h| - 1;
      AverageIgnoresFlagged(size, rule, h[..n]);
      var k := Kept(size, rule, h[..n]);
      NextAverage(size, Some(rule), k, h[n]);
      assert (k + [h[n]])[..|k|] == k && k + [] == k;
    }
  }

  function Max(a: real, b: real): real { if a < b then b else a }

  lemma ExtendBelow(avg: real, count: nat, value: real, bound: real)
    requires avg <= bound && value <= bound
    ensures Extend(avg, count, value) <= bound
  {
    ExtendProduct(avg, count, value);
    var e, c := Extend(avg, count, value), (count + 1) as real;
    ScaleBelow(avg, bound, count as real);
    if e > bound { ScaleStrictly(bound, e, c); }
  }

  lemma ScaleBelow(a: real, b: real, c: real)
    requires a <= b && c >= 0.0
    ensures a * c <= b * c
  {
  }

  lemma ScaleStrictly(a: real, b: real, c: real)
    requires a < b && c > 0.0
    ensures a * c < b * c
  {
  }

  /** After the warm-up the average never exceeds the greater of the warm-up mean and the total limit. */
  lemma {:induction false} AverageBound(size: nat, rule: Rule, h: seq<Sample>)
    requires 1 <= size <= |h| && rule.Latency?
    ensures Average(size, Some(rule), h) <= Max(Average(size, Some(rule), h[..size]), rule.totLim)
  {
    hide Extend;
    if |h| > size {
      var n := |h| - 1;
      AverageBound(size, rule, h[..n]);
      assert h[..n][..size] == h[..size];
      var before := Average(size, Some(rule), h[..n]);
      if !AbnormalPeriod(rule, h[n].latency, before) {
        ExtendBelow(before, size - 1, h[n].latency, Max(Average(size, Some(rule), h[..size]), rule.totLim));
      }
    } else {
      assert h[..size] == h;
    }
  }

  // ----- what raises an alarm -----

  /** Periods that the rule flags at the average before them leave it alone and set one tag each. */
  lemma {:induction false} FlaggedVerdicts(size: nat, rule: Rule, h: seq<Sample>, burst: seq<Sample>)
    requires 1 <= size <= |h| && rule.Latency?
    requires forall i :: 0 <= i < |burst| ==> AbnormalPeriod(rule, burst[i].latency, Average(size, Some(rule), h))
    ensures Average(size, Some(rule), h + burst) == Average(size, Some(rule), h)
    ensures Verdicts(size, Some(rule), rule, h + burst) ==
            Verdicts(size, Some(rule), rule, h) + seq(|burst|, _ => true)
  {
    hide Extend, AbnormalPeriod;
    if burst == [] {
      assert h + burst == h;
    } else {
      var n := |burst| - 1;
      FlaggedVerdicts(size, rule, h, burst[..n]);
      assert (h + burst)[..|h| + n] == h + burst[..n];
    }
  }

  lemma {:induction false} CountTail(a: seq<bool>, n: nat)
    ensures CountTrue(a + seq(n, _ => true)) >= n
  {
    if n == 0 {
    } else {
      var s := a + seq(n, _ => true);
      assert s[..|s| - 1] == a + seq(n - 1, _ => true);
      CountTail(a, n - 1);
    }
  }

  lemma FlaggedTags(size: nat, rule: Rule, h: seq<Sample>, burst: seq<Sample>)
    requires 1 <= size <= |h| && rule.Latency?
    requires forall i :: 0 <= i < |burst| ==> AbnormalPeriod(rule, burst[i].latency, Average(size, Some(rule), h))
    ensures CountTrue(VerdictWindow(size, Some(rule), rule, h + burst)) >= if |burst| < size then |burst| else size
  {
    FlaggedVerdicts(size, rule, h, burst);
    var before, tail := Falses(size) + Verdicts(size, Some(rule), rule, h), seq(|burst|, _ => true);
    hide Verdicts, AbnormalPeriod;
    assert Falses(size) + Verdicts(size, Some(rule), rule, h + burst) == before + tail;
    if |burst| < size {
      assert VerdictWindow(size, Some(rule), rule, h + burst) == LastN(before, size - |burst|) + tail;
      CountTail(LastN(before, size - |burst|), |burst|);
    } else {
      assert VerdictWindow(size, Some(rule), rule, h + burst) == Falses(0) + seq(size, _ => true);
      CountTail(Falses(0), size);
    }
  }

  /** Latencies above the total limit leave the average alone and set one tag each. */
  lemma BurstVerdicts(size: nat, rule: Rule, h: seq<Sample>, burst: seq<Sample>)
    requires 1 <= size <= |h| && rule.Latency?
    requires forall i :: 0 <= i < |burst| ==> burst[i].latency > rule.totLim
    ensures Average(size, Some(rule), h + burst) == Average(size, Some(rule), h)
    ensures Verdicts(size, Some(rule), rule, h + burst) ==
            Verdicts(size, Some(rule), rule, h) + seq(|burst|, _ => true)
  {
    FlaggedVerdicts(size, rule, h, burst);
  }

  /** After the warm-up, a burst of such periods sets as many tags as the window has room for: it raises the alarm when
      it is as long as the threshold, which is at most the window size. */
  lemma BurstAlarms(size: nat, rule: Rule, h: seq<Sample>, burst: seq<Sample>)
    requires 1 <= size <= |h| && rule.Latency?
    requires forall i :: 0 <= i < |burst| ==> burst[i].latency > rule.totLim
    ensures CountTrue(VerdictWindow(size, Some(rule), rule, h + burst)) >= if |burst| < size then |burst| else size
  {
    FlaggedTags(size, rule, h, burst);
  }

  /** And so does a burst that the total limit lets through: latencies above the lower limit and above the multiple of
      the average before the burst. */
  lemma RelativeBurstAlarms(size: nat, rule: Rule, h: seq<Sample>, burst: seq<Sample>)
    requires 1 <= size <= |h| && rule.Latency?
    requires var avg := Average(size, Some(rule), h);
             forall i :: 0 <= i < |burst| ==> burst[i].latency > rule.lim && burst[i].latency > rule.multiple * avg
    ensures Average(size, Some(rule), h + burst) == Average(size, Some(rule), h)
    ensures CountTrue(VerdictWindow(size, Some(rule), rule, h + burst)) >= if |burst| < size then |burst| else size
  {
    hide Average, AbnormalPeriod, VerdictWindow, Verdicts;
    forall i | 0 <= i < |burst| ensures AbnormalPeriod(rule, burst[i].latency, Average(size, Some(rule), h)) {
      FlaggedRelative(rule, burst[i].latency, Average(size, Some(rule), h));
    }
    FlaggedVerdicts(size, rule, h, burst);
    FlaggedTags(size, rule, h, burst);
  }

  lemma FlaggedRelative(rule: Rule, value: real, avg: real)
    requires rule.Latency? && value > rule.lim && value > rule.multiple * avg
    ensures AbnormalPeriod(rule, value, avg)
  {
    assert avg * rule.multiple == rule.multiple * avg;
  }

  /** A period under the total limit that is not above the lower limit, or not above the multiple of the average, sets no
      tag and counts into the average. */
  lemma UnflaggedPeriod(size: nat, rule: Rule, h: seq<Sample>, s: Sample)
    requires 1 <= size <= |h| && rule.Latency? && s.latency <= rule.totLim
    requires s.latency <= rule.lim || s.latency <= rule.multiple * Average(size, Some(rule), h)
    ensures Verdicts(size, Some(rule), rule, h + [s]) == Verdicts(size, Some(rule), rule, h) + [false]
    ensures size as real * Average(size, Some(rule), h + [s]) ==
            (size - 1) as real * Average(size, Some(rule), h) + s.latency
  {
    hide Average, AbnormalPeriod, Verdicts;
    NotFlagged(rule, s.latency, Average(size, Some(rule), h));
    UnflaggedNext(size, rule, h, s);
  }

  lemma UnflaggedNext(size: nat, rule: Rule, h: seq<Sample>, s: Sample)
    requires 1 <= size <= |h| && rule.Latency?
    requires !AbnormalPeriod(rule, s.latency, Average(size, Some(rule), h))
    ensures Verdicts(size, Some(rule), rule, h + [s]) == Verdicts(size, Some(rule), rule, h) + [false]
    ensures size as real * Average(size, Some(rule), h + [s]) ==
            (size - 1) as real * Average(size, Some(rule), h) + s.latency
  {
    hide Average, AbnormalPeriod, Extend;
    NextAverage(size, Some(rule), h, s);
    ExtendShare(Average(size, Some(rule), h), size, s.latency);
    assert (h + [s])[..|h|] == h;
  }

  lemma NotFlagged(rule: Rule, value: real, avg: real)
    requires rule.Latency? && value <= rule.totLim && (value <= rule.lim || value <= rule.multiple * avg)
    ensures !AbnormalPeriod(rule, value, avg)
  {
  }

  lemma ExtendShare(avg: real, size: nat, value: real)
    requires size >= 1
    ensures size as real * Extend(avg, size - 1, value) == (size - 1) as real * avg + value
  {
    ExtendProduct(avg, size - 1, value);
    hide Extend;
  }

  /** The lower the average, the more is flagged: an average that is lower never clears a verdict. */
  lemma LowerAverageFlagsMore(rule: Rule, value: real, avg: real, lower: real)
    requires lower <= avg && (rule.Latency? ==> rule.multiple >= 0.0) && AbnormalPeriod(rule, value, avg)
    ensures AbnormalPeriod(rule, value, lower)
  {
    if rule.Latency? {
      ScaleBelow(lower, avg, rule.multiple);
    }
  }

  /** A dump window looks at its own limit only, whatever the latencies do. */
  lemma {:induction false} DumpVerdicts(size: nat, latency: Option<Rule>, rule: Rule, h: seq<Sample>)
    requires rule.Dump?
    ensures forall i :: 0 <= i < |Verdicts(size, latency, rule, h)| ==>
              (Verdicts(size, latency, rule, h)[i] <==> h[size + i].dump > rule.time)
  {
    hide Average;
    if |h| <= size {
    } else {
      DumpVerdicts(size, latency, rule, h[..|h| - 1]);
    }
  }

  /** The default latency window after ten periods of 5: a period of 35 is flagged, although it is under the limit of 40,
      and leaves the average as it was. */
  method DefaultWindowRun() returns (flagged: bool, avg: real)
    ensures flagged && avg == 5.0
  {
    var w := new AbnormalWindow(10, 7, Latency(5.0, 30.0, 40.0));
    var key := new Key(10, w, null);
    for i := 0 to 10
      invariant key.Valid() && key.latency == w && key.dump == null && key.winSize == 10 && fresh(key) && fresh(w)
      invariant key.history == Steady(i)
    {
      assert Steady(i) + [Sample(5.0, 0.0)] == Steady(i + 1);
      var _ := key.UpdateAvgAndCheckAbnormal(Sample(5.0, 0.0));
    }
    SteadyAverage(10, Some(w.rule), 10);
    var _ := key.UpdateAvgAndCheckAbnormal(Sample(35.0, 0.0));
    assert (Steady(10) + [Sample(35.0, 0.0)])[..10] == Steady(10);
    NextPeriod(10, Some(w.rule), w.rule, Steady(10), Sample(35.0, 0.0));
    flagged, avg := w.abnormalWindow[9], key.avgValue;
  }

  function Steady(n: nat): (h: seq<Sample>)
    ensures |h| == n
  {
    seq(n, _ => Sample(5.0, 0.0))
  }

  lemma ExtendSame(avg: real, count: nat)
    ensures Extend(avg, count, avg) == avg
  {
    var e, c := Extend(avg, count, avg), (count + 1) as real;
    ExtendProduct(avg, count, avg);
    assert avg * c == avg * count as real + avg;
    hide Extend;
    if e < avg {
      ScaleStrictly(e, avg, c);
    } else if avg < e {
      ScaleStrictly(avg, e, c);
    }
  }

  lemma {:induction false} SteadyAverage(size: nat, latency: Option<Rule>, n: nat)
    requires 1 <= n <= size
    ensures Average(size, latency, Steady(n)) == 5.0
  {
    hide Extend, AbnormalPeriod;
    assert Steady(n)[..n - 1] == Steady(n - 1);
    if n == 1 {
      FirstAverage(5.0);
      assert Average(size, latency, Steady(0)) == 0.0;
    } else {
      SteadyAverage(size, latency, n - 1);
      ExtendSame(5.0, n - 1);
    }
  }

  lemma FirstAverage(value: real)
    ensures Extend(0.0, 0, value) == value
  {
  }

  lemma {:induction false} QuietVerdicts(size: nat, rule: Rule, h: seq<Sample>)
    requires rule.Latency?
    requires forall i :: size <= i < |h| ==> h[i].latency <= rule.lim && h[i].latency <= rule.totLim
    ensures forall i :: 0 <= i < |Verdicts(size, Some(rule), rule, h)| ==> !Verdicts(size, Some(rule), rule, h)[i]
  {
    hide Average;
    if |h| <= size {
    } else {
      QuietVerdicts(size, rule, h[..|h| - 1]);
    }
  }

  /** Latencies that stay under both absolute limits raise no alarm, whatever the average. */
  lemma QuietRaisesNothing(size: nat, rule: Rule, threshold: int, h: seq<Sample>)
    requires rule.Latency? && threshold >= 1
    requires forall i :: size <= i < |h| ==> h[i].latency <= rule.lim && h[i].latency <= rule.totLim
    ensures CountTrue(VerdictWindow(size, Some(rule), rule, h)) < threshold
  {
    QuietVerdicts(size, rule, h);
    NoTagsNoCount(VerdictWindow(size, Some(rule), rule, h));
  }
}
