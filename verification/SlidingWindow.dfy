/** The bounded window of a slow-IO detector with its cached abnormal tags. */
module SlidingWindow {
  import opened Numerals
  import opened SampleStatistics

  /** The last k elements, or all of them. */
  function LastN<T>(s: seq<T>, k: nat): (r: seq<T>)
    ensures |r| == if |s| < k then |s| else k
  {
    if |s| <= k then s else s[|s| - k..]
  }

  lemma LastSlice<T>(s: seq<T>, k: nat)
    requires k <= |s|
    ensures s[|s| - k..|s|] == LastN(s, k)
  {
  }

  lemma PushLastN<T>(s: seq<T>, k: nat, x: T)
    requires k >= 1
    ensures LastN(s + [x], k) == (if |LastN(s, k)| == k then LastN(s, k)[1..] else LastN(s, k)) + [x]
  {
    var a, b := LastN(s + [x], k), (if |LastN(s, k)| == k then LastN(s, k)[1..] else LastN(s, k)) + [x];
    assert |a| == |b|;
    assert forall i :: 0 <= i < |a| ==> a[i] == b[i];
  }

  predicate Exceeds(limit: Option<real>, data: real) { limit.Some? && data > limit.value }

  predicate Abnormal(ai: Option<real>, abs: Option<real>, avgLim: Option<real>, data: real) {
    !(avgLim.Some? && data < avgLim.value) && (Exceeds(ai, data) || Exceeds(abs, data))
  }

  function Tagged(ai: Option<real>, abs: Option<real>, avgLim: Option<real>, data: seq<real>): (tags: seq<bool>)
    ensures |tags| == |data|
  {
    seq(|data|, i requires 0 <= i < |data| => Abnormal(ai, abs, avgLim, data[i]))
  }

  function CountTrue(tags: seq<bool>): (n: nat)
    ensures n <= |tags|
  {
    if tags == [] then 0 else CountTrue(tags[..|tags| - 1]) + if tags[|tags| - 1] then 1 else 0
  }

  /** k adjacent tags are set, the last of them before position end. */
  ghost predicate HasRun(tags: seq<bool>, k: nat) {
    exists i: nat :: RunAt(tags, i, k)
  }

  ghost predicate RunAt(tags: seq<bool>, i: nat, k: nat) {
    i + k <= |tags| && forall j :: i <= j < i + k ==> tags[j]
  }

  lemma {:induction false} RunGivesCount(tags: seq<bool>, i: nat, k: nat)
    requires RunAt(tags, i, k)
    ensures CountTrue(tags) >= k
  {
    if k == 0 {
    } else {
      if i + k < |tags| {
        RunGivesCount(tags[..|tags| - 1], i, k);
      } else {
        RunGivesCount(tags[..|tags| - 1], i, k - 1);
      }
    }
  }

  /** A value is left alone if it is below the average limit, or above neither of the other two. */
  predicate Unsuspicious(ai: Option<real>, abs: Option<real>, avgLim: Option<real>, x: real) {
    || (avgLim.Some? && x < avgLim.value)
    || ((ai.Some? ==> x <= ai.value) && (abs.Some? ==> x <= abs.value))
  }

  /** The tags that are set are those of the other values: lowering a limit or raising a value can only add tags as long
      as the average limit allows them. */
  lemma TagsExactly(ai: Option<real>, abs: Option<real>, avgLim: Option<real>, data: seq<real>, i: nat)
    requires i < |data|
    ensures Tagged(ai, abs, avgLim, data)[i] <==> !Unsuspicious(ai, abs, avgLim, data[i])
  {
  }

  lemma {:induction false} NoTagsNoCount(tags: seq<bool>)
    requires forall i :: 0 <= i < |tags| ==> !tags[i]
    ensures CountTrue(tags) == 0
  {
    if tags == [] {
    } else {
      NoTagsNoCount(tags[..|tags| - 1]);
    }
  }

  /** A window of values that are all left alone reports nothing, if it asks for a tag at all. */
  lemma QuietWindow(kind: WindowType, ai: Option<real>, abs: Option<real>, avgLim: Option<real>, data: seq<real>,
                    threshold: int)
    requires !kind.Median? && (threshold >= 1 || kind.Continuous?)
    requires forall i :: 0 <= i < |data| ==> Unsuspicious(ai, abs, avgLim, data[i])
    ensures !Verdict(kind, Tagged(ai, abs, avgLim, data), data, threshold, ai, abs)
  {
    var tags := Tagged(ai, abs, avgLim, data);
    NoTagsNoCount(tags);
    forall i: nat ensures !RunAt(tags, i, RunLength(threshold)) {
      if i < |tags| { assert !tags[i]; }
    }
  }

  /** The run length the continuous window looks for: a threshold below one still needs one set tag. */
  function RunLength(threshold: int): nat { if threshold < 1 then 1 else threshold }

  /** What the continuous window reports, the non-continuous one reports too. */
  lemma ContinuousImpliesNotContinuous(tags: seq<bool>, threshold: int)
    requires HasRun(tags, RunLength(threshold))
    ensures CountTrue(tags) >= threshold
  {
    var i: nat :| RunAt(tags, i, RunLength(threshold));
    RunGivesCount(tags, i, RunLength(threshold));
  }

  function MedianOf(s: seq<real>): real
    requires s != []
  {
    var sorted := Sort(s);
    if |s| % 2 == 1 then sorted[|s| / 2] else (sorted[|s| / 2 - 1] + sorted[|s| / 2]) / 2.0
  }

  lemma {:induction false} AboveToTheRight(sorted: seq<real>, j: nat, t: real)
    requires Ascending(sorted) && j <= |sorted| && (j < |sorted| ==> sorted[j] > t)
    ensures CountAbove(sorted, t) >= |sorted| - j
  {
    if sorted == [] {
    } else {
      AboveToTheRight(sorted[1..], if j == 0 then 0 else j - 1, t);
    }
  }

  /** A median above t needs half of the window above t; for an odd window it is the majority exactly. */
  lemma MedianAboveMeansHalfAbove(s: seq<real>, t: real)
    requires s != []
    ensures MedianOf(s) > t ==> 2 * CountAbove(s, t) >= |s|
    ensures |s| % 2 == 1 ==> (MedianOf(s) > t <==> 2 * CountAbove(s, t) > |s|)
  {
    var sorted, mid := Sort(s), |s| / 2;
    SortCount(s, t);
    if sorted[mid] > t {
      AboveToTheRight(sorted, mid, t);
    } else {
      AboveOnlyToTheRight(sorted, mid, t);
    }
  }

  datatype WindowType = NotContinuous | Continuous | Median

  /** What the three window types report for the tags and data they hold. */
  ghost predicate Verdict(kind: WindowType, tags: seq<bool>, data: seq<real>, threshold: int,
                          ai: Option<real>, abs: Option<real>)
  {
    match kind
    case NotContinuous => CountTrue(tags) >= threshold
    case Continuous => HasRun(tags, RunLength(threshold))
    case Median => data != [] && (Exceeds(ai, MedianOf(data)) || Exceeds(abs, MedianOf(data)))
  }

  class Window {
    const queueLength: nat
    const queueThreshold: int
    const absThreshold: Option<real>
    const avgLim: Option<real>
    var aiThreshold: Option<real>
    var data: seq<real>
    var tags: seq<bool>

    ghost predicate Valid()
      reads this
    {
      queueLength >= 1 && |data| <= queueLength && tags == Tagged(aiThreshold, absThreshold, avgLim, data)
    }

    constructor (queueLength: nat, threshold: int, absThreshold: Option<real>, avgLim: Option<real>)
      requires queueLength >= 1
      ensures Valid() && data == [] && aiThreshold == None
      ensures this.queueLength == queueLength && queueThreshold == threshold
      ensures this.absThreshold == absThreshold && this.avgLim == avgLim
    {
      this.queueLength, queueThreshold := queueLength, threshold;
      this.absThreshold, this.avgLim := absThreshold, avgLim;
      aiThreshold, data, tags := None, [], [];
    }

    method IsAbnormal(x: real) returns (abnormal: bool)
      ensures abnormal == Abnormal(aiThreshold, absThreshold, avgLim, x)
    {
      if avgLim.Some? && x < avgLim.value { return false; }
      if aiThreshold.Some? && x > aiThreshold.value { return true; }
      if absThreshold.Some? && x > absThreshold.value { return true; }
      return false;
    }

    /** The cached tags stay those of the elements the window holds. */
    method Push(x: real) returns (tag: bool)
      requires Valid()
      modifies this
      ensures Valid() && aiThreshold == old(aiThreshold)
      ensures forall history :: old(data) == LastN(history, queueLength) ==> data == LastN(history + [x], queueLength)
      ensures data != [] && data[|data| - 1] == x && tag == tags[|tags| - 1]
      ensures tag == Abnormal(aiThreshold, absThreshold, avgLim, x)
    {
      ghost var was := data;
      if |data| == queueLength {
        data := data[1..];
        tags := tags[1..];
      }
      data := data + [x];
      tag := IsAbnormal(x);
      tags := tags + [tag];
      assert tags == Tagged(aiThreshold, absThreshold, avgLim, data);
      forall history | was == LastN(history, queueLength) ensures data == LastN(history + [x], queueLength) {
        PushLastN(history, queueLength, x);
      }
    }

    /** Notification of a new threshold: every cached tag is decided again. */
    method Update(threshold: Option<real>)
      requires Valid()
      modifies this
      ensures Valid() && aiThreshold == threshold && data == old(data)
    {
      if aiThreshold == threshold { return; }
      aiThreshold := threshold;
      tags := [];
      for i := 0 to |data|
        invariant data == old(data) && aiThreshold == threshold
        invariant tags == Tagged(aiThreshold, absThreshold, avgLim, data[..i])
      {
        var tag := IsAbnormal(data[i]);
        tags := tags + [tag];
      }
      assert data[..|data|] == data;
    }

    /** The verdict does not wait for a full window. */
    method NotContinuousVerdict() returns (slow: bool)
      requires Valid()
      ensures slow == Verdict(NotContinuous, tags, data, queueThreshold, aiThreshold, absThreshold)
    {
      slow := false;
      var full := |data| == queueLength;
      if !full || (aiThreshold == None && absThreshold == None) {
        slow := false;
      }
      var count := 0;
      for i := 0 to |tags|
        invariant count == CountTrue(tags[..i])
      {
        assert tags[..i + 1][..i] == tags[..i];
        if tags[i] { count := count + 1; }
      }
      assert tags[..|tags|] == tags;
      if count >= queueThreshold {
        slow := true;
      }
    }

    method ContinuousVerdict() returns (slow: bool)
      requires Valid()
      ensures slow == Verdict(Continuous, tags, data, queueThreshold, aiThreshold, absThreshold)
    {
      slow := false;
      var consecutive := 0;
      ghost var k := RunLength(queueThreshold);
      for i := 0 to |tags|
        invariant 0 <= consecutive <= i && consecutive < k && !slow
        invariant forall j :: i - consecutive <= j < i ==> tags[j]
        invariant consecutive < i ==> !tags[i - consecutive - 1]
        invariant forall s: nat :: s + k <= i ==> !RunAt(tags, s, k)
      {
        if tags[i] {
          consecutive := consecutive + 1;
          if consecutive >= queueThreshold {
            slow := true;
            assert RunAt(tags, i + 1 - k, k);
            return;
          }
        } else {
          consecutive := 0;
        }
        forall s: nat | s + k <= i + 1 ensures !RunAt(tags, s, k) {
          if s + k == i + 1 && consecutive > 0 {
            assert s <= i - consecutive < i + 1;
          }
        }
      }
    }

    method MedianVerdict() returns (slow: bool)
      requires Valid() && data != []
      ensures slow == Verdict(Median, tags, data, queueThreshold, aiThreshold, absThreshold)
    {
      var median := MedianOf(data);
      slow := (aiThreshold.Some? && median > aiThreshold.value) || (absThreshold.Some? && median > absThreshold.value);
    }
  }

  // ----- windows that are not full -----
  // The tests for a full window have no effect, because the flag they reset is set again just below them.

  /** What happens to a window: a value is pushed, or a new threshold arrives. */
  datatype WindowOp = Pushed(x: real) | NewThreshold(t: real)

  function PushedValues(ops: seq<WindowOp>): (v: seq<real>)
    ensures |v| <= |ops|
  {
    if ops == [] then []
    else PushedValues(ops[..|ops| - 1]) + if ops[|ops| - 1].Pushed? then [ops[|ops| - 1].x] else []
  }

  function LastThreshold(ops: seq<WindowOp>): Option<real> {
    if ops == [] then None
    else if ops[|ops| - 1].NewThreshold? then Some(ops[|ops| - 1].t)
    else LastThreshold(ops[..|ops| - 1])
  }

  datatype WindowConfig = WindowConfig(
    kind: WindowType, length: nat, threshold: int, abs: Option<real>, avgLim: Option<real>)

  /** The verdict of the configured window on the data it holds under a trained limit. */
  ghost predicate Alarms(c: WindowConfig, ai: Option<real>, data: seq<real>) {
    Verdict(c.kind, Tagged(ai, c.abs, c.avgLim, data), data, c.threshold, ai, c.abs)
  }

  /** In every run, a verdict after a push comes from a full window. */
  ghost predicate OnlyWhenFull(c: WindowConfig) {
    forall ops: seq<WindowOp> ::
      ops != [] && ops[|ops| - 1].Pushed? && Alarms(c, LastThreshold(ops), LastN(PushedValues(ops), c.length)) ==>
        |PushedValues(ops)| >= c.length
  }

  /** What the configuration needs for that. */
  predicate NeedsFull(c: WindowConfig) {
    if c.kind.Median? then c.length == 1 else RunLength(c.threshold) >= c.length
  }

  /** An alarm on a window with something in it, if the configuration needs a full one. */
  lemma AlarmNeedsFull(c: WindowConfig, ai: Option<real>, data: seq<real>)
    requires NeedsFull(c) && data != [] && Alarms(c, ai, data)
    ensures |data| >= c.length
  {
    if c.kind.Continuous? {
      var tags := Tagged(ai, c.abs, c.avgLim, data);
      var i: nat :| RunAt(tags, i, RunLength(c.threshold));
    }
  }

  function Repeated(x: real, n: nat): (s: seq<real>)
    ensures |s| == n
  {
    seq(n, _ => x)
  }

  lemma {:induction false} AllTrue(tags: seq<bool>)
    requires forall i :: 0 <= i < |tags| ==> tags[i]
    ensures CountTrue(tags) == |tags|
  {
    if tags == [] {
    } else {
      AllTrue(tags[..|tags| - 1]);
    }
  }

  /** As many values above a limit as the run length asks for, or one for a median, are an alarm, however long the
      window is. */
  lemma EarlyAlarm(c: WindowConfig, ai: Option<real>, x: real)
    requires Exceeds(ai, x) || Exceeds(c.abs, x)
    requires c.avgLim.Some? ==> x >= c.avgLim.value
    ensures Alarms(c, ai, Repeated(x, if c.kind.Median? then 1 else RunLength(c.threshold)))
  {
    var n := if c.kind.Median? then 1 else RunLength(c.threshold);
    var tags := Tagged(ai, c.abs, c.avgLim, Repeated(x, n));
    if c.kind.Median? {
      MedianOfOne(x);
      assert Repeated(x, 1) == [x];
    } else {
      AllTrue(tags);
      assert RunAt(tags, 0, n);
    }
  }

  lemma MedianOfOne(x: real)
    ensures MedianOf([x]) == x
  {
    assert Sort([x][1..]) == [];
  }

  function Pushes(x: real, n: nat): (ops: seq<WindowOp>)
    ensures |ops| == n && forall i :: 0 <= i < n ==> ops[i] == Pushed(x)
  {
    seq(n, _ => Pushed(x))
  }

  lemma {:induction false} PushesRun(t: real, x: real, n: nat)
    ensures PushedValues([NewThreshold(t)] + Pushes(x, n)) == Repeated(x, n)
    ensures LastThreshold([NewThreshold(t)] + Pushes(x, n)) == Some(t)
  {
    var ops := [NewThreshold(t)] + Pushes(x, n);
    if n == 0 {
      assert ops == [NewThreshold(t)] && ops[..0] == [];
    } else {
      assert ops[..n] == [NewThreshold(t)] + Pushes(x, n - 1);
      PushesRun(t, x, n - 1);
    }
  }

  /** Exactly when no alarm comes from a window that is not full, for every configuration: the continuous and the
      non-continuous window must ask for as many tags as they are long, the median window must hold one value. */
  lemma OnlyWhenFullExactly(c: WindowConfig)
    requires c.length >= 1
    ensures OnlyWhenFull(c) <==> NeedsFull(c)
  {
    hide Alarms;
    if NeedsFull(c) {
      forall ops: seq<WindowOp> |
        ops != [] && ops[|ops| - 1].Pushed? && Alarms(c, LastThreshold(ops), LastN(PushedValues(ops), c.length))
        ensures |PushedValues(ops)| >= c.length
      {
        AlarmNeedsFull(c, LastThreshold(ops), LastN(PushedValues(ops), c.length));
      }
    } else {
      var n := if c.kind.Median? then 1 else RunLength(c.threshold);
      var t := if c.avgLim.Some? then c.avgLim.value else 0.0;
      var ops := [NewThreshold(t)] + Pushes(t + 1.0, n);
      PushesRun(t, t + 1.0, n);
      EarlyAlarm(c, Some(t), t + 1.0);
      assert LastN(PushedValues(ops), c.length) == Repeated(t + 1.0, n);
    }
  }

  /** The default configuration: six values above an absolute limit are an alarm in a window of thirty. */
  method DefaultConfigurationRun() returns (slow: bool, held: nat)
    ensures slow && held == 6
  {
    var w := new Window(30, 6, Some(40.0), None);
    for i := 0 to 6
      invariant w.Valid() && w.queueLength == 30 && w.queueThreshold == 6
      invariant w.aiThreshold == None && w.absThreshold == Some(40.0) && w.avgLim == None
      invariant w.data == Repeated(41.0, i)
    {
      ghost var before := w.data;
      assert before == LastN(before, w.queueLength);
      var _ := w.Push(41.0);
      assert w.data == LastN(before + [41.0], w.queueLength);
    }
    EarlyAlarm(WindowConfig(NotContinuous, 30, 6, Some(40.0), None), None, 41.0);
    slow := w.NotContinuousVerdict();
    held := |w.data|;
  }
}
