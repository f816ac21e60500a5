/**
 * The update thread and the period thread of the eBPF collector on one counter window. They share no lock, so every
 * access to the window is a step of its own. The schedules are arbitrary.
 */
module CollectorThreads {
  import opened Numerals
  import opened Collector

  /** What the update thread does next: the length test, then pop() if the window was full, then append. */
  datatype Updater = Testing | Popping | Appending

  /** What the period thread does next: the length test, the reads of [-1] and [-2], pop(0), and the insertion at 1 of
      what it reads at [0]. */
  datatype Ticker = Checking | ReadingLast | ReadingPrev | PoppingFirst | ReadingFirst | Inserting

  /** newest is the last value appended; curr, prev and first are what the period thread has read; samples are the
      periods it has stored, oldest first. An index error ends a thread. */
  datatype Threads = Threads(
    window: seq<Counters>, updater: Updater, ticker: Ticker, updaterEnded: bool, ended: bool,
    newest: Counters, curr: Counters, prev: Counters, first: Counters, samples: seq<Sample>)

  /** The next access of the update thread, with the counters it handles, or of the period thread. */
  datatype Step = UpdateAccess(counters: Counters) | PeriodAccess

  const START := Threads([ZERO, ZERO], Testing, Checking, false, false, ZERO, ZERO, ZERO, ZERO, [])

  function UpdateStep(s: Threads, c: Counters): Threads {
    match s.updater
    case Testing => s.(updater := if |s.window| >= 2 then Popping else Appending)
    case Popping =>
      if s.window == [] then s.(updaterEnded := true)
      else s.(window := s.window[..|s.window| - 1], updater := Appending)
    case Appending => s.(window := s.window + [c], updater := Testing, newest := c)
  }

  function PeriodStep(s: Threads): Threads {
    match s.ticker
    case Checking => if |s.window| < 2 then s.(ended := true) else s.(ticker := ReadingLast)
    case ReadingLast =>
      if s.window == [] then s.(ended := true)
      else s.(curr := s.window[|s.window| - 1], ticker := ReadingPrev)
    case ReadingPrev =>
      if |s.window| < 2 then s.(ended := true)
      else s.(prev := s.window[|s.window| - 2], ticker := PoppingFirst)
    case PoppingFirst =>
      if s.window == [] then s.(ended := true)
      else s.(window := s.window[1..], ticker := ReadingFirst)
    case ReadingFirst =>
      if s.window == [] then s.(ended := true)
      else s.(first := s.window[0], ticker := Inserting)
    case Inserting =>
      s.(window := if s.window == [] then [s.first] else [s.window[0], s.first] + s.window[1..],
         samples := s.samples + [Sample(s.prev, s.curr)], ticker := Checking)
  }

  /** A thread that has ended takes no more steps. */
  function Do(s: Threads, step: Step): Threads {
    match step
    case UpdateAccess(c) => if s.updaterEnded then s else UpdateStep(s, c)
    case PeriodAccess => if s.ended then s else PeriodStep(s)
  }

  function After(steps: seq<Step>): Threads {
    if steps == [] then START else Do(After(steps[..|steps| - 1]), steps[|steps| - 1])
  }

  lemma AfterNext(steps: seq<Step>, n: nat)
    requires n < |steps|
    ensures After(steps[..n + 1]) == Do(After(steps[..n]), steps[n])
  {
    assert steps[..n + 1][..n] == steps[..n];
  }

  // ----- when the window sticks at three entries, and when the period thread ends -----

  predicate FirstTaken(s: Threads) { s.ticker.ReadingFirst? || s.ticker.Inserting? }

  /** An update's length test between pop(0) and insert. */
  predicate TestsTooEarly(s: Threads, step: Step) { step.UpdateAccess? && s.updater.Testing? && FirstTaken(s) }

  predicate Stuck(steps: seq<Step>) {
    exists i :: 0 <= i < |steps| && TestsTooEarly(After(steps[..i]), steps[i])
  }

  /** Two entries, or three once stuck, less the one an update has popped and the one a tick has. */
  function Length(s: Threads, stuck: bool): int {
    (if stuck then 3 else 2) - (if s.updater.Appending? then 1 else 0) - (if FirstTaken(s) then 1 else 0)
  }

  lemma StepLength(s: Threads, step: Step, stuck: bool)
    requires |s.window| == Length(s, stuck) && !s.updaterEnded
    ensures var s' := Do(s, step); |s'.window| == Length(s', stuck || TestsTooEarly(s, step)) && !s'.updaterEnded
  {
  }

  lemma StuckNext(steps: seq<Step>, n: nat)
    requires n < |steps|
    ensures Stuck(steps[..n + 1]) <==> Stuck(steps[..n]) || TestsTooEarly(After(steps[..n]), steps[n])
  {
    hide After, TestsTooEarly;
    var a, b := steps[..n], steps[..n + 1];
    forall i: nat | i <= n ensures b[..i] == steps[..i] && a[..i] == steps[..i] {
    }
    if Stuck(a) {
      var i :| 0 <= i < |a| && TestsTooEarly(After(a[..i]), a[i]);
      assert TestsTooEarly(After(b[..i]), b[i]);
    }
    if TestsTooEarly(After(steps[..n]), steps[n]) {
      assert TestsTooEarly(After(b[..n]), b[n]);
    }
    if Stuck(b) {
      var i :| 0 <= i < |b| && TestsTooEarly(After(b[..i]), b[i]);
      assert i < n ==> TestsTooEarly(After(a[..i]), a[i]);
    }
  }

  /** Under every schedule the update thread runs on, and the window has two entries between the operations of the
      threads unless some length test of an update came between a pop(0) and its insert; then it has three, for good. */
  lemma {:induction false} WindowLength(steps: seq<Step>, n: nat)
    requires n <= |steps|
    ensures !After(steps[..n]).updaterEnded
    ensures |After(steps[..n]).window| == Length(After(steps[..n]), Stuck(steps[..n]))
  {
    if n == 0 {
    } else {
      WindowLength(steps, n - 1);
      AfterNext(steps, n - 1);
      StuckNext(steps, n - 1);
      StepLength(After(steps[..n - 1]), steps[n - 1], Stuck(steps[..n - 1]));
    }
  }

  /** The length test, the read of [-2] or the read of [0] after pop(0), between an update's pop and its append. */
  predicate TooShort(s: Threads, step: Step) {
    step.PeriodAccess? && s.updater.Appending? && (s.ticker.Checking? || s.ticker.ReadingPrev? || s.ticker.ReadingFirst?)
  }

  predicate EndsAt(steps: seq<Step>, i: nat)
    requires i < |steps|
  {
    TooShort(After(steps[..i]), steps[i]) && !Stuck(steps[..i])
  }

  lemma StepEnds(s: Threads, step: Step, stuck: bool)
    requires |s.window| == Length(s, stuck)
    ensures Do(s, step).ended <==> s.ended || (TooShort(s, step) && !stuck)
  {
  }

  /** The period thread ends exactly when one of these accesses comes between the pop and the append of an update
      while the window is not stuck. */
  lemma {:induction false} PeriodThreadEndsExactly(steps: seq<Step>, n: nat)
    requires n <= |steps|
    ensures After(steps[..n]).ended <==> exists i :: 0 <= i < n && EndsAt(steps, i)
  {
    hide Stuck, Do, Length, TooShort;
    if n == 0 {
    } else {
      PeriodThreadEndsExactly(steps, n - 1);
      WindowLength(steps, n - 1);
      AfterNext(steps, n - 1);
      StepEnds(After(steps[..n - 1]), steps[n - 1], Stuck(steps[..n - 1]));
      assert EndsAt(steps, n - 1) <==> TooShort(After(steps[..n - 1]), steps[n - 1]) && !Stuck(steps[..n - 1]);
    }
  }

  // ----- when the stored periods add up -----

  function LastTick(samples: seq<Sample>): Counters {
    if samples == [] then ZERO else samples[|samples| - 1].curr
  }

  /** Each stored period begins with the counters the one before it ended with. */
  predicate Consecutive(samples: seq<Sample>) {
    forall i :: 0 <= i < |samples| ==> samples[i].prev == LastTick(samples[..i])
  }

  /** The window holds the counters of the last tick and the newest ones, less what the two threads have taken out,
      and the period thread has read just these. */
  predicate Sound(s: Threads) {
    var last, rest := LastTick(s.samples), if s.updater.Appending? then [] else [s.newest];
    match s.ticker
    case Checking => s.window == [last] + rest
    case ReadingLast => s.window == [last] + rest
    case ReadingPrev =>
      s.window == [last] + rest && (s.curr == s.newest || (s.updater.Appending? && s.curr == last))
    case PoppingFirst => s.window == [last] + rest && s.prev == last && s.curr == s.newest
    case ReadingFirst => s.window == rest && s.prev == last && s.curr == s.newest
    case Inserting => s.window == rest && s.prev == last && s.curr == s.newest && s.first == s.curr
  }

  /** An update's length test between pop(0) and insert, or its append between the read of [-1] and the insert. */
  predicate Disturbs(s: Threads, step: Step) {
    && !s.ended && step.UpdateAccess?
    && match s.updater
       case Testing => FirstTaken(s)
       case Popping => false
       case Appending => !s.ticker.Checking? && !s.ticker.ReadingLast?
  }

  lemma StepKeepsSound(s: Threads, step: Step)
    requires Sound(s) && !s.ended && !s.updaterEnded && !Disturbs(s, step)
    ensures Do(s, step).ended || Sound(Do(s, step))
    ensures !Do(s, step).updaterEnded
  {
  }

  /** The counters an update brings are higher than all before. */
  predicate Grows(s: Threads, step: Step) {
    step.UpdateAccess? && s.updater.Appending? ==> step.counters.finish > s.newest.finish
  }

  predicate UpdatesGrow(steps: seq<Step>) {
    forall i :: 0 <= i < |steps| ==> Grows(After(steps[..i]), steps[i])
  }

  predicate Ordered(s: Threads) {
    && (forall i :: 0 <= i < |s.window| ==> s.window[i].finish <= s.newest.finish)
    && s.curr.finish <= s.newest.finish
    && s.first.finish <= s.newest.finish
    && LastTick(s.samples).finish <= s.newest.finish
  }

  lemma UpdateKeepsOrdered(s: Threads, c: Counters)
    requires Ordered(s) && Grows(s, UpdateAccess(c))
    ensures Ordered(UpdateStep(s, c))
  {
  }

  lemma PeriodKeepsOrdered(s: Threads)
    requires Ordered(s)
    ensures Ordered(PeriodStep(s))
  {
    if s.ticker.Inserting? {
      hide UpdateStep;
      assert LastTick(PeriodStep(s).samples) == s.curr;
    }
  }

  lemma StepKeepsOrdered(s: Threads, step: Step)
    requires Ordered(s) && Grows(s, step)
    ensures Ordered(Do(s, step))
  {
    hide Ordered, Grows, UpdateStep, PeriodStep;
    match step {
      case UpdateAccess(c) => UpdateKeepsOrdered(s, c);
      case PeriodAccess => PeriodKeepsOrdered(s);
    }
  }

  lemma DisturbedIsUnsound(s: Threads, step: Step)
    requires Sound(s) && Ordered(s) && !s.updaterEnded && Disturbs(s, step) && Grows(s, step)
    ensures !Sound(Do(s, step)) && !Do(s, step).ended
  {
  }

  lemma {:induction false} RunOrdered(steps: seq<Step>, n: nat)
    requires n <= |steps| && UpdatesGrow(steps)
    ensures Ordered(After(steps[..n]))
  {
    if n == 0 {
    } else {
      RunOrdered(steps, n - 1);
      AfterNext(steps, n - 1);
      StepKeepsOrdered(After(steps[..n - 1]), steps[n - 1]);
    }
  }

  ghost predicate SoundUpTo(steps: seq<Step>, n: nat)
    requires n <= |steps|
  {
    forall i :: 0 <= i <= n ==> After(steps[..i]).ended || Sound(After(steps[..i]))
  }

  ghost predicate UndisturbedUpTo(steps: seq<Step>, n: nat)
    requires n <= |steps|
  {
    forall i :: 0 <= i < n ==> !Disturbs(After(steps[..i]), steps[i])
  }

  lemma StepSoundExactly(s: Threads, step: Step)
    requires (s.ended || Sound(s)) && Ordered(s) && Grows(s, step) && !s.updaterEnded
    ensures Do(s, step).ended || Sound(Do(s, step)) <==> !Disturbs(s, step)
  {
    hide Ordered, Sound, Grows;
    if s.ended {
      EndedStays(s, step);
    } else if Disturbs(s, step) {
      DisturbedIsUnsound(s, step);
    } else {
      StepKeepsSound(s, step);
    }
  }

  /** While the counters grow, the window is sound as long as the period thread lives, in every state of a schedule,
      if and only if no update disturbs a tick. */
  lemma {:induction false} SoundExactly(steps: seq<Step>, n: nat)
    requires n <= |steps| && UpdatesGrow(steps)
    ensures SoundUpTo(steps, n) <==> UndisturbedUpTo(steps, n)
  {
    hide Do, Sound, Disturbs, Ordered, Grows, After;
    if n == 0 {
      StartIsSound();
      assert steps[..0] == [];
    } else {
      SoundExactly(steps, n - 1);
      AfterNext(steps, n - 1);
      WindowLength(steps, n - 1);
      RunOrdered(steps, n - 1);
      assert SoundUpTo(steps, n) <==>
             SoundUpTo(steps, n - 1) && (After(steps[..n]).ended || Sound(After(steps[..n])));
      if SoundUpTo(steps, n - 1) {
        StepSoundExactly(After(steps[..n - 1]), steps[n - 1]);
      }
    }
  }

  lemma StartIsSound()
    ensures Sound(After([])) && Consecutive(After([]).samples)
  {
  }

  lemma EndedStays(s: Threads, step: Step)
    ensures s.ended ==> Do(s, step).ended && Do(s, step).samples == s.samples && !Disturbs(s, step)
  {
  }

  lemma OneMoreSample(samples: seq<Sample>, next: Sample)
    requires Consecutive(samples) && next.prev == LastTick(samples)
    ensures Consecutive(samples + [next])
  {
    hide LastTick;
    forall i | 0 <= i <= |samples| ensures (samples + [next])[..i] == samples[..i] {
    }
    assert samples[..|samples|] == samples;
  }

  lemma NextSample(s: Threads, step: Step)
    requires Sound(s) && Consecutive(s.samples)
    ensures Consecutive(Do(s, step).samples)
  {
    hide Consecutive, LastTick;
    OnlyInsertStores(s, step);
    if Do(s, step).samples != s.samples {
      OneMoreSample(s.samples, Sample(s.prev, s.curr));
    }
  }

  lemma OnlyInsertStores(s: Threads, step: Step)
    ensures Do(s, step).samples == s.samples ||
            (s.ticker.Inserting? && Do(s, step).samples == s.samples + [Sample(s.prev, s.curr)])
  {
  }

  /** An undisturbed schedule stores consecutive periods, whether or not the period thread ends. */
  lemma {:induction false} UndisturbedPeriods(steps: seq<Step>, n: nat)
    requires n <= |steps| && UndisturbedUpTo(steps, n)
    ensures After(steps[..n]).ended || Sound(After(steps[..n]))
    ensures Consecutive(After(steps[..n]).samples)
  {
    hide Do, Sound, Disturbs, Consecutive;
    if n == 0 {
      StartIsSound();
    } else {
      UndisturbedPeriods(steps, n - 1);
      AfterNext(steps, n - 1);
      WindowLength(steps, n - 1);
      var s, step := After(steps[..n - 1]), steps[n - 1];
      EndedStays(s, step);
      if !s.ended {
        StepKeepsSound(s, step);
        NextSample(s, step);
      }
    }
  }

  lemma {:induction false} ConsecutiveSum(samples: seq<Sample>)
    requires Consecutive(samples)
    ensures SumFinish(samples) == LastTick(samples).finish && SumLatency(samples) == LastTick(samples).latency
  {
    if samples == [] {
    } else {
      var init := samples[..|samples| - 1];
      assert forall i :: 0 <= i < |init| ==> init[..i] == samples[..i];
      ConsecutiveSum(init);
    }
  }

  /** And so the stored deltas add up to the counters at the last tick. */
  lemma PeriodsAddUp(steps: seq<Step>)
    requires UndisturbedUpTo(steps, |steps|)
    ensures var samples := After(steps).samples;
            SumFinish(samples) == LastTick(samples).finish && SumLatency(samples) == LastTick(samples).latency
  {
    hide Disturbs, Consecutive, Do;
    assert steps[..|steps|] == steps;
    UndisturbedPeriods(steps, |steps|);
    ConsecutiveSum(After(steps).samples);
  }

  // ----- what happens after a disturbance -----

  /** The window is stuck with a in front of its last entry. */
  predicate StuckOn(s: Threads, a: Counters) {
    var rest := if s.updater.Appending? then [] else [s.newest];
    match s.ticker
    case ReadingFirst => s.window == [a] + rest
    case Inserting => s.window == [a] + rest && s.first == a
    case _ => s.window == [a, a] + rest
  }

  /** A tick that began with the window stuck on a has read a as the counters before it. */
  predicate Repeats(s: Threads, a: Counters) {
    s.ticker.PoppingFirst? || FirstTaken(s) ==> s.prev == a
  }

  /** A length test between pop(0) and insert sticks the window on the counters of the tick in progress. */
  lemma SticksOn(s: Threads, step: Step)
    requires Sound(s) && !s.ended && !s.updaterEnded && TestsTooEarly(s, step)
    ensures StuckOn(Do(s, step), s.curr) && !Do(s, step).ended
  {
  }

  lemma UpdateStuckOn(s: Threads, c: Counters, a: Counters)
    requires StuckOn(s, a) && !s.ended && !s.updaterEnded
    ensures var s' := UpdateStep(s, c);
            StuckOn(s', a) && !s'.ended && !s'.updaterEnded && s'.samples == s.samples
  {
  }

  lemma PeriodStuckOn(s: Threads, a: Counters)
    requires StuckOn(s, a) && !s.ended && !s.updaterEnded
    ensures var s' := PeriodStep(s); StuckOn(s', a) && !s'.ended && !s'.updaterEnded
  {
  }

  lemma StepStuckOn(s: Threads, step: Step, a: Counters)
    requires StuckOn(s, a) && !s.ended && !s.updaterEnded
    ensures var s' := Do(s, step); StuckOn(s', a) && !s'.ended && !s'.updaterEnded
  {
    hide StuckOn, UpdateStep, PeriodStep;
    match step {
      case UpdateAccess(c) => UpdateStuckOn(s, c, a);
      case PeriodAccess => PeriodStuckOn(s, a);
    }
  }

  lemma StepRepeats(s: Threads, step: Step, a: Counters)
    requires StuckOn(s, a) && Repeats(s, a)
    ensures var s' := Do(s, step);
            Repeats(s', a) && (s'.samples == s.samples || s'.samples == s.samples + [Sample(a, s.curr)])
  {
  }

  /** Once the window is stuck on a, the period thread never ends, and all it stores are periods that begin with a:
      what was counted since a is counted again in every one of them. */
  lemma {:induction false} StuckForGood(steps: seq<Step>, m: nat, n: nat, a: Counters)
    requires m <= n <= |steps|
    requires var s := After(steps[..m]); StuckOn(s, a) && Repeats(s, a) && !s.ended
    ensures var s, s' := After(steps[..m]), After(steps[..n]);
            && StuckOn(s', a) && Repeats(s', a) && !s'.ended
            && s.samples <= s'.samples
            && forall i :: |s.samples| <= i < |s'.samples| ==> s'.samples[i].prev == a
  {
    hide Do, StuckOn, Repeats, After;
    if n == m {
    } else {
      StuckForGood(steps, m, n - 1, a);
      AfterNext(steps, n - 1);
      WindowLength(steps, n - 1);
      StepStuckOn(After(steps[..n - 1]), steps[n - 1], a);
      StepRepeats(After(steps[..n - 1]), steps[n - 1], a);
    }
  }

  // ----- schedules -----

  lemma AfterMore(steps: seq<Step>, step: Step)
    ensures After(steps + [step]) == Do(After(steps), step)
  {
    assert (steps + [step])[..|steps|] == steps;
  }

  /** The state after more steps. */
  function Then(s: Threads, steps: seq<Step>): Threads
    decreases |steps|
  {
    if steps == [] then s else Then(Do(s, steps[0]), steps[1..])
  }

  lemma {:induction false} AfterThen(first: seq<Step>, steps: seq<Step>)
    ensures After(first + steps) == Then(After(first), steps)
    decreases |steps|
  {
    hide Do, After;
    if steps == [] {
      assert first + steps == first;
    } else {
      AfterMore(first, steps[0]);
      AfterThen(first + [steps[0]], steps[1..]);
      assert first + steps == first + [steps[0]] + steps[1..];
    }
  }

  lemma {:induction false} ThenBoth(s: Threads, a: seq<Step>, b: seq<Step>)
    ensures Then(s, a + b) == Then(Then(s, a), b)
    decreases |a|
  {
    if a == [] {
      assert a + b == b;
    } else {
      ThenBoth(Do(s, a[0]), a[1..], b);
      assert (a + b)[1..] == a[1..] + b;
    }
  }

  function Times(step: Step, n: nat): seq<Step> { seq(n, _ => step) }

  lemma ThenOne(s: Threads, step: Step, n: nat)
    requires n > 0
    ensures Then(s, Times(step, n)) == Then(Do(s, step), Times(step, n - 1))
    ensures Then(s, Times(step, 0)) == s
  {
    hide Do;
    assert Times(step, n)[1..] == Times(step, n - 1);
  }

  /** An update or a tick that nothing comes between does to the window what Cell.UpdateCounters and Cell.AppendPeriod
      do; so the two are schedules of this machine. */
  lemma UpdateAlone(s: Threads, c: Counters)
    requires s.updater.Testing? && !s.updaterEnded && |s.window| >= 2
    ensures Then(s, Times(UpdateAccess(c), 3)) == s.(window := s.window[..|s.window| - 1] + [c], newest := c)
  {
    var s1 := s.(updater := Popping);
    var s2 := s1.(window := s.window[..|s.window| - 1], updater := Appending);
    var s3 := s.(window := s.window[..|s.window| - 1] + [c], newest := c);
    assert Do(s, UpdateAccess(c)) == s1 && Do(s1, UpdateAccess(c)) == s2 && Do(s2, UpdateAccess(c)) == s3;
    hide Do, Then, Times;
    ThenOne(s, UpdateAccess(c), 3);
    ThenOne(s1, UpdateAccess(c), 2);
    ThenOne(s2, UpdateAccess(c), 1);
    ThenOne(s3, UpdateAccess(c), 1);
  }

  lemma TickReads(s: Threads)
    requires s.ticker.Checking? && !s.ended && |s.window| >= 2
    ensures Then(s, Times(PeriodAccess, 3)) ==
            s.(curr := s.window[|s.window| - 1], prev := s.window[|s.window| - 2], ticker := PoppingFirst)
  {
    var s1 := s.(ticker := ReadingLast);
    var s2 := s1.(curr := s.window[|s.window| - 1], ticker := ReadingPrev);
    var s3 := s2.(prev := s.window[|s.window| - 2], ticker := PoppingFirst);
    assert Do(s, PeriodAccess) == s1 && Do(s1, PeriodAccess) == s2 && Do(s2, PeriodAccess) == s3;
    hide Do, Then, Times;
    ThenOne(s, PeriodAccess, 3);
    ThenOne(s1, PeriodAccess, 2);
    ThenOne(s2, PeriodAccess, 1);
    ThenOne(s3, PeriodAccess, 1);
  }

  lemma TickPops(s: Threads)
    requires s.ticker.PoppingFirst? && !s.ended && s.window != []
    ensures Then(s, Times(PeriodAccess, 1)) == s.(window := s.window[1..], ticker := ReadingFirst)
  {
    ThenOne(s, PeriodAccess, 1);
  }

  lemma TickInserts(s: Threads)
    requires s.ticker.ReadingFirst? && !s.ended && s.window != []
    ensures Then(s, Times(PeriodAccess, 2)) ==
            s.(first := s.window[0], window := [s.window[0], s.window[0]] + s.window[1..],
               samples := s.samples + [Sample(s.prev, s.curr)], ticker := Checking)
  {
    ThenOne(s, PeriodAccess, 2);
    ThenOne(Do(s, PeriodAccess), PeriodAccess, 1);
  }

  lemma TickAlone(s: Threads)
    requires s.ticker.Checking? && !s.ended && |s.window| >= 2
    ensures var k, s' := |s.window|, Then(s, Times(PeriodAccess, 6));
            && s'.window == [s.window[1], s.window[1]] + s.window[2..]
            && s'.samples == s.samples + [Sample(s.window[k - 2], s.window[k - 1])]
            && s'.updater == s.updater && s'.updaterEnded == s.updaterEnded && s'.newest == s.newest
            && s'.ticker.Checking? && !s'.ended
  {
    hide Then, Do;
    var s1 := Then(s, Times(PeriodAccess, 3));
    var s2 := Then(s1, Times(PeriodAccess, 1));
    TickReads(s);
    TickPops(s1);
    TickInserts(s2);
    ThenBoth(s, Times(PeriodAccess, 3), Times(PeriodAccess, 1));
    ThenBoth(s, Times(PeriodAccess, 3) + Times(PeriodAccess, 1), Times(PeriodAccess, 2));
    assert Times(PeriodAccess, 6) == Times(PeriodAccess, 3) + Times(PeriodAccess, 1) + Times(PeriodAccess, 2);
  }

  /** The length test is passed, an update pops, and the read of [-2] fails. */
  lemma PeriodThreadCanEnd(a: Counters)
    ensures var u := UpdateAccess(a); After([u, PeriodAccess, u, PeriodAccess, PeriodAccess]).ended
  {
    var u := UpdateAccess(a);
    var s1 := START.(updater := Popping);
    var s2 := s1.(ticker := ReadingLast);
    var s3 := s2.(window := [ZERO], updater := Appending);
    var s4 := s3.(curr := ZERO, ticker := ReadingPrev);
    assert Do(START, u) == s1 && Do(s1, PeriodAccess) == s2;
    assert Do(s2, u) == s3 && Do(s3, PeriodAccess) == s4 && Do(s4, PeriodAccess).ended;
    assert After([]) == START;
    hide Do, After;
    AfterMore([], u);
    AfterMore([] + [u], PeriodAccess);
    AfterMore([] + [u] + [PeriodAccess], u);
    AfterMore([] + [u] + [PeriodAccess] + [u], PeriodAccess);
    AfterMore([] + [u] + [PeriodAccess] + [u] + [PeriodAccess], PeriodAccess);
    assert [] + [u] + [PeriodAccess] + [u] + [PeriodAccess] + [PeriodAccess] ==
           [u, PeriodAccess, u, PeriodAccess, PeriodAccess];
  }

  lemma UpdateAppends(s: Threads, c: Counters)
    requires s.updater.Testing? && !s.updaterEnded && |s.window| < 2
    ensures Then(s, Times(UpdateAccess(c), 2)) == s.(window := s.window + [c], newest := c)
  {
    ThenOne(s, UpdateAccess(c), 2);
    ThenOne(Do(s, UpdateAccess(c)), UpdateAccess(c), 1);
  }

  function Join(pieces: seq<seq<Step>>): seq<Step> {
    if pieces == [] then [] else Join(pieces[..|pieces| - 1]) + pieces[|pieces| - 1]
  }

  /** The schedule made of several pieces leads where the pieces lead one after the other. */
  lemma {:induction false} AfterAll(pieces: seq<seq<Step>>, ss: seq<Threads>)
    requires |ss| == |pieces| + 1 && ss[0] == START
    requires forall i :: 0 <= i < |pieces| ==> ss[i + 1] == Then(ss[i], pieces[i])
    ensures After(Join(pieces)) == ss[|pieces|]
  {
    if pieces == [] {
    } else {
      var n := |pieces| - 1;
      AfterAll(pieces[..n], ss[..n + 1]);
      AfterThen(Join(pieces[..n]), pieces[n]);
    }
  }

  /** A whole update between pop(0) and insert: the period from a to b is stored twice, and would be with every further
      tick. */
  lemma CountedTwice(a: Counters, b: Counters)
    ensures var steps := Join([Times(UpdateAccess(a), 3), Times(PeriodAccess, 3), Times(PeriodAccess, 1),
                               Times(UpdateAccess(b), 2), Times(PeriodAccess, 2), Times(PeriodAccess, 6),
                               Times(PeriodAccess, 6)]);
            && After(steps).samples == [Sample(ZERO, a), Sample(a, b), Sample(a, b)]
            && After(steps).window == [a, a, b] && !After(steps).ended
  {
    hide Do, Then, After, Times, Join;
    var s1 := Then(START, Times(UpdateAccess(a), 3));
    UpdateAlone(START, a);
    TickReads(s1);
    var s2 := Then(s1, Times(PeriodAccess, 3));
    TickPops(s2);
    var s3 := Then(s2, Times(PeriodAccess, 1));
    UpdateAppends(s3, b);
    var s4 := Then(s3, Times(UpdateAccess(b), 2));
    TickInserts(s4);
    var s5 := Then(s4, Times(PeriodAccess, 2));
    TickAlone(s5);
    var s6 := Then(s5, Times(PeriodAccess, 6));
    TickAlone(s6);
    AfterAll([Times(UpdateAccess(a), 3), Times(PeriodAccess, 3), Times(PeriodAccess, 1), Times(UpdateAccess(b), 2),
              Times(PeriodAccess, 2), Times(PeriodAccess, 6), Times(PeriodAccess, 6)],
             [START, s1, s2, s3, s4, s5, s6, Then(s6, Times(PeriodAccess, 6))]);
  }

  /** A whole update between the read of [-2] and pop(0): what was counted from a to b is in no stored period. */
  lemma CountsLost(a: Counters, b: Counters, c: Counters)
    ensures var steps := Join([Times(UpdateAccess(a), 3), Times(PeriodAccess, 3), Times(UpdateAccess(b), 3),
                               Times(PeriodAccess, 1), Times(PeriodAccess, 2), Times(UpdateAccess(c), 3),
                               Times(PeriodAccess, 6)]);
            After(steps).samples == [Sample(ZERO, a), Sample(b, c)] && !After(steps).ended
  {
    hide Do, Then, After, Times, Join;
    var s1 := Then(START, Times(UpdateAccess(a), 3));
    UpdateAlone(START, a);
    TickReads(s1);
    var s2 := Then(s1, Times(PeriodAccess, 3));
    UpdateAlone(s2, b);
    var s3 := Then(s2, Times(UpdateAccess(b), 3));
    TickPops(s3);
    var s4 := Then(s3, Times(PeriodAccess, 1));
    TickInserts(s4);
    var s5 := Then(s4, Times(PeriodAccess, 2));
    UpdateAlone(s5, c);
    var s6 := Then(s5, Times(UpdateAccess(c), 3));
    TickAlone(s6);
    AfterAll([Times(UpdateAccess(a), 3), Times(PeriodAccess, 3), Times(UpdateAccess(b), 3), Times(PeriodAccess, 1),
              Times(PeriodAccess, 2), Times(UpdateAccess(c), 3), Times(PeriodAccess, 6)],
             [START, s1, s2, s3, s4, s5, s6, Then(s6, Times(PeriodAccess, 6))]);
  }
}
