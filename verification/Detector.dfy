/** Trained thresholds, their retraining schedule, and the detector that feeds a threshold and a window. */
module Detector {
  import opened Numerals
  import opened SampleStatistics
  import opened SlidingWindow

  // ----- the schedule as functions of the samples seen -----

  /** Samples below 1e-6 do not train. */
  predicate Trains(x: real) { !(x < 0.000001) }

  function Accepted(history: seq<real>): (s: seq<real>)
    ensures |s| <= |history|
  {
    if history == [] then []
    else
      var x := history[|history| - 1];
      Accepted(history[..|history| - 1]) + if Trains(x) then [x] else []
  }

  lemma AcceptedNext(history: seq<real>, x: real)
    ensures Accepted(history + [x]) == Accepted(history) + if Trains(x) then [x] else []
  {
    assert (history + [x])[..|history|] == history;
  }

  /** What trains are the values from one millionth on. */
  lemma {:induction false} AcceptedExactly(history: seq<real>, x: real)
    ensures multiset(Accepted(history))[x] == if x >= 0.000001 then multiset(history)[x] else 0
  {
    if history == [] {
    } else {
      var n := |history| - 1;
      AcceptedExactly(history[..n], x);
      assert history == history[..n] + [history[n]];
    }
  }

  /** An update size of zero behaves as one. */
  function Step(updateSize: nat): nat { if updateSize == 0 then 1 else updateSize }

  /** Number of accepted samples at the last training, once N of them have been accepted. */
  function TrainedAt(size: nat, updateSize: nat, n: nat): (e: nat)
    requires 1 <= size <= n
    ensures size <= e <= n < e + Step(updateSize)
    decreases n
  {
    var u := Step(updateSize);
    if n < size + u then size else u + TrainedAt(size, updateSize, n - u)
  }

  /** N + U * floor((n - N) / U). */
  lemma {:induction false} TrainedAtClosedForm(size: nat, updateSize: nat, n: nat)
    requires 1 <= size <= n
    ensures TrainedAt(size, updateSize, n) == size + Step(updateSize) * ((n - size) / Step(updateSize))
    decreases n
  {
    var u, d := Step(updateSize), n - size;
    if n < size + u {
      DivUnique(d, u, 0, d);
    } else {
      TrainedAtClosedForm(size, updateSize, n - u);
      var q := (d - u) / u;
      assert u * (q + 1) == u * q + u;
      DivUnique(d, u, q + 1, (d - u) % u);
    }
  }

  /** The threshold in force after the accepted samples a: none before N of them, then the one computed
      from the N samples that end at the last training. A queue of size zero never fills. */
  function ThresholdAfter(size: nat, updateSize: nat, compute: seq<real> -> real, a: seq<real>): Option<real> {
    if size == 0 || |a| < size then None
    else
      var e := TrainedAt(size, updateSize, |a|);
      Some(compute(a[e - size..e]))
  }

  /** The value the counter of new samples holds. */
  function NewDataAfter(size: nat, updateSize: nat, n: nat): nat {
    if size == 0 || n < size then n else n - TrainedAt(size, updateSize, n)
  }

  /** One more accepted sample: training happens exactly when the counter reaches the step. */
  lemma {:induction false} NextTraining(size: nat, updateSize: nat, n: nat)
    requires 1 <= size <= n
    ensures TrainedAt(size, updateSize, n + 1) ==
            if n + 1 - TrainedAt(size, updateSize, n) >= Step(updateSize) then n + 1
            else TrainedAt(size, updateSize, n)
    decreases n
  {
    var u := Step(updateSize);
    if n < size + u {
    } else {
      NextTraining(size, updateSize, n - u);
    }
  }

  /** What one more accepted sample does to the schedule, by the test the program makes. */
  lemma ScheduleStep(size: nat, updateSize: nat, compute: seq<real> -> real, a: seq<real>, x: real)
    requires size >= 1
    ensures var b, c := a + [x], NewDataAfter(size, updateSize, |a|) + 1;
            if |b| >= size && (ThresholdAfter(size, updateSize, compute, a) == None || c >= updateSize)
            then ThresholdAfter(size, updateSize, compute, b) == Some(compute(LastN(b, size)))
                 && NewDataAfter(size, updateSize, |b|) == 0
            else ThresholdAfter(size, updateSize, compute, b) == ThresholdAfter(size, updateSize, compute, a)
                 && NewDataAfter(size, updateSize, |b|) == c
  {
    hide TrainedAt;
    var b, n := a + [x], |a|;
    if n >= size {
      NextTraining(size, updateSize, n);
      var e := TrainedAt(size, updateSize, n);
      assert b[e - size..e] == a[e - size..e];
    }
    if n + 1 >= size {
      LastSlice(b, size);
    }
  }

  /** The samples the threshold in force was computed from. */
  function Training(size: nat, updateSize: nat, a: seq<real>): (t: seq<real>)
    requires 1 <= size <= |a|
    ensures |t| == size
  {
    var e := TrainedAt(size, updateSize, |a|);
    a[e - size..e]
  }

  function BoxplotCompute(parameter: real): seq<real> -> real {
    (s: seq<real>) => if s == [] then 0.0 else BoxplotThreshold(s, parameter)
  }

  function NSigmaCompute(std: seq<real> -> real, k: real): seq<real> -> real {
    (s: seq<real>) => if s == [] then 0.0 else NSigmaThreshold(s, std(s), k)
  }

  /** At any point of any run a box plot threshold lies above all but a quarter of what it was trained on. */
  lemma BoxplotRunBound(size: nat, updateSize: nat, parameter: real, a: seq<real>)
    requires 1 <= size <= |a| && parameter > 0.0
    ensures var t := ThresholdAfter(size, updateSize, BoxplotCompute(parameter), a);
            t.Some? && CountAbove(Training(size, updateSize, a), t.value) <= (size + 2) / 4
  {
    BoxplotBound(Training(size, updateSize, a), parameter);
  }

  /** And an n-sigma threshold lies above all but N / (k * k) of it. */
  lemma NSigmaRunBound(size: nat, updateSize: nat, std: seq<real> -> real, k: real, a: seq<real>)
    requires 1 <= size <= |a| && k > 0.0 && IsStd(Training(size, updateSize, a), std(Training(size, updateSize, a)))
    ensures var t := ThresholdAfter(size, updateSize, NSigmaCompute(std, k), a);
            t.Some? && AtMostInverseSquare(CountAbove(Training(size, updateSize, a), t.value), size, k)
  {
    NSigmaBound(Training(size, updateSize, a), std(Training(size, updateSize, a)), k);
  }

  /** The same for the detector when an absolute limit is set: in every history of metric values an alarm comes
      from a full window if and only if the configuration asks for one. */
  lemma DetectorNeedsFullExactly(c: WindowConfig, size: nat, updateSize: nat, compute: seq<real> -> real)
    requires c.length >= 1 && c.abs.Some?
    ensures NeedsFull(c) <==>
              forall h: seq<real> ::
                h != [] && Alarms(c, ThresholdAfter(size, updateSize, compute, Accepted(h)), LastN(h, c.length)) ==>
                |h| >= c.length
  {
    hide Alarms, ThresholdAfter, Accepted;
    if NeedsFull(c) {
      forall h: seq<real> |
        h != [] && Alarms(c, ThresholdAfter(size, updateSize, compute, Accepted(h)), LastN(h, c.length))
        ensures |h| >= c.length
      {
        AlarmNeedsFull(c, ThresholdAfter(size, updateSize, compute, Accepted(h)), LastN(h, c.length));
      }
    } else {
      var n := if c.kind.Median? then 1 else RunLength(c.threshold);
      var x := 1.0 + if c.avgLim.Some? && c.avgLim.value > c.abs.value then c.avgLim.value else c.abs.value;
      var h := Repeated(x, n);
      EarlyAlarm(c, ThresholdAfter(size, updateSize, compute, Accepted(h)), x);
      assert LastN(h, c.length) == h;
    }
  }

  /** In every history of metric values, whatever the rule that computes thresholds, an alarm comes from a full
      window. */
  ghost predicate FullWindowsOnly(c: WindowConfig, size: nat, updateSize: nat) {
    forall compute: seq<real> -> real, h: seq<real> ::
      h != [] && Alarms(c, ThresholdAfter(size, updateSize, compute, Accepted(h)), LastN(h, c.length)) ==>
        |h| >= c.length
  }

  /** The window fills before the first threshold arrives, and without one reports nothing. */
  predicate TrainsWhenFull(c: WindowConfig, size: nat) {
    (size == 0 || size >= c.length) && !(c.kind.NotContinuous? && c.threshold < 1)
  }

  lemma NoLimitNoAlarm(c: WindowConfig, data: seq<real>)
    requires c.abs == None && !(c.kind.NotContinuous? && c.threshold < 1)
    ensures !Alarms(c, None, data)
  {
    if !c.kind.Median? {
      QuietWindow(c.kind, None, c.abs, c.avgLim, data, c.threshold);
    }
  }

  lemma {:induction false} AllAccepted(x: real, n: nat)
    requires Trains(x)
    ensures Accepted(Repeated(x, n)) == Repeated(x, n)
  {
    if n == 0 {
    } else {
      AllAccepted(x, n - 1);
      assert Repeated(x, n) == Repeated(x, n - 1) + [x];
      AcceptedNext(Repeated(x, n - 1), x);
    }
  }

  /** Enough high values to train a threshold and set the tags asked for: an alarm once the threshold lies below. */
  lemma EarlyAlarmOnTraining(c: WindowConfig, size: nat, updateSize: nat, n: nat)
    requires c.abs == None && 1 <= size <= n
    requires n >= if c.kind.Median? then 1 else RunLength(c.threshold)
    ensures exists compute: seq<real> -> real, h: seq<real> ::
              |h| == n && Alarms(c, ThresholdAfter(size, updateSize, compute, Accepted(h)), h)
  {
    var x := 1.0 + if c.avgLim.Some? && c.avgLim.value > 0.0 then c.avgLim.value else 0.0;
    var compute: seq<real> -> real := _ => 0.0;
    var h := Repeated(x, n);
    AllAccepted(x, n);
    assert ThresholdAfter(size, updateSize, compute, Accepted(h)) == Some(0.0);
    ManyHigh(c, Some(0.0), x, n);
  }

  lemma ManyHigh(c: WindowConfig, ai: Option<real>, x: real, n: nat)
    requires Exceeds(ai, x) && (c.avgLim.Some? ==> x >= c.avgLim.value)
    requires n >= if c.kind.Median? then 1 else RunLength(c.threshold)
    ensures Alarms(c, ai, Repeated(x, n))
  {
    var tags := Tagged(ai, c.abs, c.avgLim, Repeated(x, n));
    if c.kind.Median? {
      MedianOfEqual(x, n);
    } else {
      AllTrue(tags);
      assert RunAt(tags, 0, RunLength(c.threshold));
    }
  }

  lemma MedianOfEqual(x: real, n: nat)
    requires n >= 1
    ensures MedianOf(Repeated(x, n)) == x
  {
    var s, sorted := Repeated(x, n), Sort(Repeated(x, n));
    SortKeepsSamples(s);
    hide Sort;
    assert forall k :: 0 <= k < |s| ==> s[k] == x;
    forall i | 0 <= i < |sorted| ensures sorted[i] == x {
      assert sorted[i] in multiset(sorted);
      assert sorted[i] in s;
    }
  }

  /** Without an absolute limit the training counts as well: every alarm comes from a full window exactly if the
      configuration asks for one, or no threshold arrives before the window is full. */
  lemma WithoutLimitExactly(c: WindowConfig, size: nat, updateSize: nat)
    requires c.length >= 1 && c.abs == None
    ensures FullWindowsOnly(c, size, updateSize) <==> NeedsFull(c) || TrainsWhenFull(c, size)
  {
    hide Alarms, Accepted;
    if NeedsFull(c) || TrainsWhenFull(c, size) {
      forall compute: seq<real> -> real, h: seq<real> |
        h != [] && Alarms(c, ThresholdAfter(size, updateSize, compute, Accepted(h)), LastN(h, c.length))
        ensures |h| >= c.length
      {
        if NeedsFull(c) {
          AlarmNeedsFull(c, ThresholdAfter(size, updateSize, compute, Accepted(h)), LastN(h, c.length));
        } else {
          NoLimitNoAlarm(c, LastN(h, c.length));
        }
      }
    } else if c.kind.NotContinuous? && c.threshold < 1 {
      AlwaysAlarms(c, ThresholdAfter(size, updateSize, _ => 0.0, Accepted([0.0])));
      assert LastN([0.0], c.length) == [0.0];
    } else {
      var k := if c.kind.Median? then 1 else RunLength(c.threshold);
      var n := if size > k then size else k;
      EarlyAlarmOnTraining(c, size, updateSize, n);
      var compute: seq<real> -> real, h: seq<real> :|
        |h| == n && Alarms(c, ThresholdAfter(size, updateSize, compute, Accepted(h)), h);
      assert LastN(h, c.length) == h;
    }
  }

  /** A non-continuous window that asks for no tag reports on every value. */
  lemma AlwaysAlarms(c: WindowConfig, ai: Option<real>)
    requires c.kind.NotContinuous? && c.threshold < 1
    ensures Alarms(c, ai, [0.0])
  {
  }

  /** With a limit that is set once and never trained, as for the numbers of pending dumps, the alarms come from full
      windows exactly if the configuration asks for it. */
  lemma FixedLimitExactly(c: WindowConfig, limit: real)
    requires c.length >= 1
    ensures NeedsFull(c) <==>
              forall h: seq<real> :: h != [] && Alarms(c, Some(limit), LastN(h, c.length)) ==> |h| >= c.length
  {
    hide Alarms;
    if NeedsFull(c) {
      forall h: seq<real> | h != [] && Alarms(c, Some(limit), LastN(h, c.length)) ensures |h| >= c.length {
        AlarmNeedsFull(c, Some(limit), LastN(h, c.length));
      }
    } else {
      var n := if c.kind.Median? then 1 else RunLength(c.threshold);
      var x := 1.0 + if c.avgLim.Some? && c.avgLim.value > limit then c.avgLim.value else limit;
      var h := Repeated(x, n);
      EarlyAlarm(c, Some(limit), x);
      assert LastN(h, c.length) == h;
    }
  }

  // ----- the objects -----

  /** BoxplotThreshold and NSigmaThreshold differ in compute only. */
  class Threshold {
    const compute: seq<real> -> real
    const queueSize: nat
    const updateSize: nat
    var queue: seq<real>
    var newDataSize: nat
    var started: bool
    var threshold: real            // meaningful once started
    var observer: Window?
    ghost var accepted: seq<real>

    ghost predicate Valid()
      reads this
    {
      && queue == (if queueSize == 0 then accepted else LastN(accepted, queueSize))
      && (queueSize == 0 ==> !started)
      && newDataSize == NewDataAfter(queueSize, updateSize, |accepted|)
      && (if started then Some(threshold) else None) == ThresholdAfter(queueSize, updateSize, compute, accepted)
    }

    constructor (compute: seq<real> -> real, queueSize: nat, updateSize: nat)
      ensures Valid() && accepted == [] && observer == null && !started
      ensures this.compute == compute && this.queueSize == queueSize && this.updateSize == updateSize
    {
      this.compute, this.queueSize, this.updateSize := compute, queueSize, updateSize;
      queue, newDataSize, started, threshold, observer := [], 0, false, 0.0, null;
      accepted := [];
    }

    method AttachObserver(w: Window)
      modifies this`observer
      ensures observer == w
    {
      observer := w;
    }

    /** queue.Queue.put, dropping the oldest sample when the queue is full; a queue of size zero is unbounded. */
    method Put(x: real)
      requires queueSize == 0 || |queue| <= queueSize
      modifies this`queue
      ensures queue == (if |old(queue)| == queueSize && queueSize > 0 then old(queue)[1..] else old(queue)) + [x]
    {
      if |queue| == queueSize && queueSize > 0 {
        queue := queue[1..];
      }
      queue := queue + [x];
    }

    method UpdateThreshold()
      requires observer != null ==> observer.Valid()
      modifies this`threshold, this`started, observer
      ensures started && threshold == compute(queue)
      ensures observer != null ==>
                observer.Valid() && observer.aiThreshold == Some(threshold) && observer.data == old(observer.data)
    {
      threshold := compute(queue);
      if !started { started := true; }
      if observer != null {
        observer.Update(Some(threshold));
      }
    }

    /** After any number of samples the threshold is the one the schedule gives, and the observer has it. */
    method PushLatestDataToQueue(x: real)
      requires Valid()
      requires observer != null ==>
                 observer.Valid() && observer.aiThreshold == if started then Some(threshold) else None
      modifies this, observer
      ensures Valid() && observer == old(observer)
      ensures accepted == old(accepted) + if Trains(x) then [x] else []
      ensures observer != null ==>
                observer.Valid() && observer.data == old(observer.data) &&
                observer.aiThreshold == if started then Some(threshold) else None
    {
      if x < 0.000001 { return; }
      if queueSize >= 1 {
        ScheduleStep(queueSize, updateSize, compute, accepted, x);
        PushLastN(accepted, queueSize, x);
      }
      Put(x);
      accepted := accepted + [x];
      newDataSize := newDataSize + 1;
      assert queue == if queueSize == 0 then accepted else LastN(accepted, queueSize);
      if 0 < queueSize <= |queue| && (!started || newDataSize >= updateSize) {
        UpdateThreshold();
        newDataSize := 0;
      }
    }
  }

  class SlowIoDetector {
    const threshold: Threshold
    const window: Window
    const windowType: WindowType
    ghost var history: seq<real>

    /** The whole state is a function of the metric values seen. */
    ghost predicate Valid()
      reads this, threshold, window
    {
      && threshold.Valid()
      && window.Valid()
      && threshold.observer == window
      && threshold.accepted == Accepted(history)
      && window.data == LastN(history, window.queueLength)
      && window.aiThreshold ==
           ThresholdAfter(threshold.queueSize, threshold.updateSize, threshold.compute, Accepted(history))
    }

    constructor (threshold: Threshold, window: Window, windowType: WindowType)
      requires threshold.Valid() && threshold.accepted == []
      requires window.Valid() && window.data == [] && window.aiThreshold == None
      modifies threshold
      ensures Valid() && history == []
      ensures this.threshold == threshold && this.window == window && this.windowType == windowType
    {
      this.threshold, this.window, this.windowType := threshold, window, windowType;
      history := [];
      new;
      threshold.AttachObserver(window);
    }

    /** Trains the threshold on x, which may decide all tags again, then pushes x into the window. */
    method Observe(x: real) returns (abnormalPeriod: bool)
      requires Valid()
      modifies this, threshold, window
      ensures Valid() && history == old(history) + [x]
      ensures abnormalPeriod == Abnormal(window.aiThreshold, window.absThreshold, window.avgLim, x)
    {
      hide ThresholdAfter, Tagged, NewDataAfter, Abnormal, Accepted, LastN, Trains;
      AcceptedNext(history, x);
      threshold.PushLatestDataToQueue(x);
      abnormalPeriod := window.Push(x);
      history := history + [x];
    }

    /** One metric value, or none when the collector had no sample for this metric. */
    method IsSlowIoEvent(metric: Option<real>) returns (slow: bool, abnormalPeriod: bool)
      requires Valid()
      modifies this, threshold, window
      ensures Valid()
      ensures history == old(history) + if metric.Some? then [metric.value] else []
      ensures metric == None ==> !slow && !abnormalPeriod
      ensures metric.Some? ==>
                abnormalPeriod == Abnormal(window.aiThreshold, window.absThreshold, window.avgLim, metric.value)
      ensures metric.Some? ==>
                slow == Verdict(windowType, window.tags, window.data, window.queueThreshold,
                                window.aiThreshold, window.absThreshold)
    {
      if metric == None {
        return false, false;
      }
      abnormalPeriod := Observe(metric.value);
      match windowType {
        case NotContinuous => slow := window.NotContinuousVerdict();
        case Continuous => slow := window.ContinuousVerdict();
        case Median => slow := window.MedianVerdict();
      }
    }
  }

  /** The threshold of the detectors for dumps and operations per second: set by hand or never, and not trained. */
  class AbsoluteThreshold {
    var threshold: Option<real>
    var observer: Window?

    constructor ()
      ensures threshold == None && observer == null
    {
      threshold, observer := None, null;
    }

    method AttachObserver(w: Window)
      modifies this`observer
      ensures observer == w
    {
      observer := w;
    }

    /** A limit that is not configured is passed on as well, and takes a limit that was set away again. */
    method SetThreshold(limit: Option<real>)
      requires observer != null ==> observer.Valid()
      modifies this`threshold, observer
      ensures threshold == limit
      ensures observer != null ==>
                observer.Valid() && observer.aiThreshold == limit && observer.data == old(observer.data)
    {
      threshold := limit;
      if observer != null {
        observer.Update(limit);
      }
    }
  }

  /** The detector with such a threshold. */
  class FixedDetector {
    const threshold: AbsoluteThreshold
    const window: Window
    const windowType: WindowType
    ghost var history: seq<real>

    ghost predicate Valid()
      reads this, threshold, window
    {
      && window.Valid()
      && threshold.observer == window
      && window.data == LastN(history, window.queueLength)
      && window.aiThreshold == threshold.threshold
    }

    constructor (threshold: AbsoluteThreshold, window: Window, windowType: WindowType)
      requires threshold.threshold == None && window.Valid() && window.data == [] && window.aiThreshold == None
      modifies threshold
      ensures Valid() && history == []
      ensures this.threshold == threshold && this.window == window && this.windowType == windowType
    {
      this.threshold, this.window, this.windowType := threshold, window, windowType;
      history := [];
      new;
      threshold.AttachObserver(window);
    }

    /** The limit decides from now on, for the values already held too. */
    method Configure(limit: Option<real>)
      requires Valid()
      modifies this, threshold, window
      ensures Valid() && history == old(history) && threshold.threshold == limit
    {
      threshold.SetThreshold(limit);
    }

    /** The verdict is that of the window on the last values under the limit, whatever came before. */
    method IsSlowIoEvent(metric: Option<real>) returns (slow: bool, abnormalPeriod: bool)
      requires Valid()
      modifies this, window
      ensures Valid() && history == old(history) + if metric.Some? then [metric.value] else []
      ensures metric == None ==> !slow && !abnormalPeriod
      ensures metric.Some? ==>
                abnormalPeriod == Abnormal(threshold.threshold, window.absThreshold, window.avgLim, metric.value)
      ensures metric.Some? ==>
                slow == Alarms(WindowConfig(windowType, window.queueLength, window.queueThreshold, window.absThreshold,
                                            window.avgLim),
                               threshold.threshold, LastN(history, window.queueLength))
    {
      if metric == None {
        return false, false;
      }
      abnormalPeriod := window.Push(metric.value);
      history := history + [metric.value];
      match windowType {
        case NotContinuous => slow := window.NotContinuousVerdict();
        case Continuous => slow := window.ContinuousVerdict();
        case Median => slow := window.MedianVerdict();
      }
    }
  }
}
