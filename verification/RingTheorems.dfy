/** What holds in every run of the ring scan, for any number of threads and any interleaving. */
module RingTheorems {
  import opened Numerals
  import opened RingImage
  import opened RingScan

  /** ss are the states of a run from the initial state, ls the steps taken between them. */
  ghost predicate Run(c: Config, ss: seq<State>, ls: seq<Label>) {
    && c.Valid()
    && |ss| == |ls| + 1
    && ss[0] == Init(c)
    && forall i :: 0 <= i < |ls| ==>
         Shaped(c, ss[i]) && Enabled(c, ss[i], ls[i]) && ss[i + 1] == Apply(c, ss[i], ls[i])
  }

  lemma {:induction false} RunKeepsInv(c: Config, ss: seq<State>, ls: seq<Label>, i: nat)
    requires Run(c, ss, ls) && i < |ss|
    ensures Inv(c, ss[i])
  {
    if i == 0 {
      InitInv(c);
    } else {
      RunKeepsInv(c, ss, ls, i - 1);
      StepKeepsInv(c, ss[i - 1], ls[i - 1]);
    }
  }

  /** All threads pass the same barrier points in the same order, and threads blocked together are
      blocked at the same call site of the same issue. */
  lemma Lockstep(c: Config, ss: seq<State>, ls: seq<Label>, i: nat, t: nat, u: nat)
    requires Run(c, ss, ls) && i < |ss| && t < |c.node| && u < |c.node|
    ensures |ss[i].threads| == |c.node|
    ensures ss[i].threads[t].trace == ss[i].threads[u].trace == TraceUpTo(|ss[i].threads[t].trace|)
    ensures ss[i].threads[t].pc.Wait? && ss[i].threads[u].pc.Wait? ==>
              ss[i].threads[t].pc == ss[i].threads[u].pc &&
              ss[i].threads[t].special == ss[i].threads[u].special &&
              ss[i].threads[t].pc.site == |ss[i].threads[t].trace| % 5 + 1
  {
    RunKeepsInv(c, ss, ls, i);
    var s := ss[i];
    var n := Passed(s);
    assert ThreadOk(c, n, s, t) && ThreadOk(c, n, s, u);
  }

  /** No thread waits at a barrier that another has abandoned: once one has left the loop nobody is or
      gets blocked again, and all that have left did so in the same round. */
  lemma NoneStranded(c: Config, ss: seq<State>, ls: seq<Label>, i: nat, t: nat, u: nat)
    requires Run(c, ss, ls) && i < |ss| && t < |c.node| && u < |c.node|
    requires |ss[i].threads| == |c.node| && ss[i].threads[t].pc.Done?
    ensures !ss[i].threads[u].pc.Wait? && !ss[i].threads[u].pc.WriteBit?
    ensures ss[i].threads[u].pc.Done? ==> ss[i].threads[u].loopCnt == ss[i].threads[t].loopCnt
    ensures i < |ls| && ls[i].Advance? && ls[i].t == u ==>
              ss[i + 1].threads[u].pc.Top? || ss[i + 1].threads[u].pc.Done?
  {
    RunKeepsInv(c, ss, ls, i);
    DoneTogether(c, ss[i], t, u);
    if i < |ls| && ls[i].Advance? && ls[i].t == u {
      NoneGoesBack(c, ss[i], ls[i], t);
    }
  }

  lemma DoneTogether(c: Config, s: State, t: nat, u: nat)
    requires Inv(c, s) && t < |s.threads| && u < |s.threads| && s.threads[t].pc.Done?
    ensures !s.threads[u].pc.Wait? && !s.threads[u].pc.WriteBit?
    ensures s.threads[u].pc.Done? ==> s.threads[u].loopCnt == s.threads[t].loopCnt
    ensures s.threads[u].pc.Check? || s.threads[u].pc.Top? || s.threads[u].pc.Done?
  {
    hide WordsOk, OwnerOk, TraceUpTo;
    assert ThreadOk(c, Passed(s), s, t) && ThreadOk(c, Passed(s), s, u);
  }

  lemma NoneGoesBack(c: Config, s: State, l: Label, t: nat)
    requires Inv(c, s) && Enabled(c, s, l) && l.Advance? && t < |s.threads| && s.threads[t].pc.Done?
    ensures Apply(c, s, l).threads[l.t].pc.Top? || Apply(c, s, l).threads[l.t].pc.Done?
  {
    StepKeepsInv(c, s, l);
    DoneTogether(c, s, t, l.t);
    DoneTogether(c, Apply(c, s, l), t, l.t);
    hide Inv;
  }

  /** Until every thread is done, some step is enabled. */
  lemma NoDeadlock(c: Config, ss: seq<State>, ls: seq<Label>, i: nat)
    requires Run(c, ss, ls) && i < |ss|
    ensures Shaped(c, ss[i])
    ensures (forall t :: 0 <= t < |ss[i].threads| ==> ss[i].threads[t].pc.Done?) || exists l :: Enabled(c, ss[i], l)
  {
    RunKeepsInv(c, ss, ls, i);
    var s := ss[i];
    var n := Passed(s);
    if t :| 0 <= t < |s.threads| && !s.threads[t].pc.Done? && !s.threads[t].pc.Wait? {
      assert ThreadOk(c, n, s, t);
      SomeoneMoves(c, s, t);
    } else if t :| 0 <= t < |s.threads| && !s.threads[t].pc.Done? {
      forall u | 0 <= u < |s.threads| ensures s.threads[u].pc.Wait? {
        assert ThreadOk(c, n, s, t) && ThreadOk(c, n, s, u);
      }
      assert Enabled(c, s, Release);
    }
  }

  /** A thread that is neither blocked nor done moves, or waits for a mutex whose owner moves. */
  lemma SomeoneMoves(c: Config, s: State, t: nat)
    requires Inv(c, s) && t < |s.threads| && !s.threads[t].pc.Done? && !s.threads[t].pc.Wait?
    ensures exists l :: Enabled(c, s, l)
  {
    var n := Passed(s);
    assert ThreadOk(c, n, s, t);
    if n % 5 != 0 { BitRange(n / 5, s.scanBit); }
    if s.threads[t].pc.Enter? && c.node[t] >= 0 && s.nodes[c.node[t]].owner.Some? {
      var x := c.node[t];
      assert OwnerOk(c, n, s, x);
      var o := s.nodes[x].owner.value;
      assert ThreadOk(c, n, s, o);
      assert Enabled(c, s, Advance(o, 0, 0, 0));
    } else {
      assert Enabled(c, s, Advance(t, 0, 0, 0));
    }
  }

  /** While a thread scans, nobody holds a node's lock or sweeps its memory, every thread works on the
      same bit, and the scanned node carries exactly that bit's pattern. */
  lemma ScanIsolated(c: Config, ss: seq<State>, ls: seq<Label>, i: nat, t: nat, u: nat)
    requires Run(c, ss, ls) && i < |ss| && t < |c.node| && u < |c.node|
    requires |ss[i].threads| == |c.node| && ss[i].threads[t].pc.Scan?
    ensures Shaped(c, ss[i])
    ensures !InCritical(ss[i].threads[u].pc)
    ensures ss[i].threads[u].bit == ss[i].threads[t].bit == ss[i].scanBit < SCAN_BITS
    ensures forall x :: 0 <= x < |ss[i].nodes| ==> ss[i].nodes[x].owner == None
    ensures c.node[t] >= 0 ==>
              ss[i].nodes[c.node[t]].words == Image(c.units, ss[i].threads[t].bit, 0, c.units)
  {
    RunKeepsInv(c, ss, ls, i);
    var s := ss[i];
    var n := Passed(s);
    assert ThreadOk(c, n, s, t) && ThreadOk(c, n, s, u);
    BitRange(n / 5, s.scanBit);
    forall x | 0 <= x < |s.nodes| ensures s.nodes[x].owner == None {
      assert OwnerOk(c, n, s, x);
    }
    if c.node[t] >= 0 {
      assert WordsOk(c, n, s, c.node[t]) && OnNode(c, c.node[t]);
    }
  }

  /** At most one thread is in the critical section of a node. */
  lemma MutualExclusion(c: Config, ss: seq<State>, ls: seq<Label>, i: nat, t: nat, u: nat)
    requires Run(c, ss, ls) && i < |ss| && t < |c.node| && u < |c.node| && |ss[i].threads| == |c.node|
    requires InCritical(ss[i].threads[t].pc) && InCritical(ss[i].threads[u].pc) && c.node[t] == c.node[u]
    ensures t == u
  {
    RunKeepsInv(c, ss, ls, i);
    assert ThreadOk(c, Passed(ss[i]), ss[i], t) && ThreadOk(c, Passed(ss[i]), ss[i], u);
  }

  /** A scan step whose read returns what memory holds never goes to the error branch. */
  lemma FaithfulScanPasses(c: Config, s: State, l: Label)
    requires Inv(c, s) && Enabled(c, s, l) && Faithful(c, s, l)
    ensures l.Advance? && s.threads[l.t].pc.Scan? ==> !Apply(c, s, l).threads[l.t].pc.Bump?
  {
    if l.Advance? && s.threads[l.t].pc.Scan? && c.node[l.t] >= 0 && s.threads[l.t].pc.pos < c.readCount {
      var n, x := Passed(s), c.node[l.t];
      assert ThreadOk(c, n, s, l.t) && WordsOk(c, n, s, x) && OnNode(c, x);
      BitRange(n / 5, s.scanBit);
      var u := s.threads[l.t].pc.pos % c.units;
      PatternPasses(c.units, s.scanBit, u);
    }
  }

  /** Memory that is faithful up to step i never raises err_flag: every alarm has a deviating read behind it. */
  lemma {:induction false} NoFalseAlarm(c: Config, ss: seq<State>, ls: seq<Label>, i: nat)
    requires Run(c, ss, ls) && i < |ss|
    requires forall j :: 0 <= j < i ==> Faithful(c, ss[j], ls[j])
    ensures ss[i].errFlag == 0
    ensures forall t :: 0 <= t < |ss[i].threads| ==> !ss[i].threads[t].pc.Bump?
  {
    if i == 0 {
    } else {
      NoFalseAlarm(c, ss, ls, i - 1);
      RunKeepsInv(c, ss, ls, i - 1);
      var s, l := ss[i - 1], ls[i - 1];
      FaithfulScanPasses(c, s, l);
      forall t | 0 <= t < |ss[i].threads| ensures !ss[i].threads[t].pc.Bump? {
        assert !s.threads[t].pc.Bump?;
      }
    }
  }

  // ----- every deviating read is counted -----

  /** The step reads a unit of the test space. */
  predicate Reads(c: Config, s: State, l: Label)
    requires Shaped(c, s)
  {
    l.Advance? && l.t < |s.threads| && s.threads[l.t].pc.Scan? && c.node[l.t] >= 0 &&
    s.threads[l.t].pc.pos < c.readCount
  }

  /** A read goes to the error branch exactly when its unit fails the test of the scan loop, for any words in which
      the two that were read can be found; else to the next unit. */
  lemma ReadVerdict(c: Config, s: State, l: Label, words: seq<nat>)
    requires Shaped(c, s) && Enabled(c, s, l) && Reads(c, s, l) && s.threads[l.t].bit < SCAN_BITS
    requires var u := s.threads[l.t].pc.pos % c.units;
             && UNIT_WORDS * (u + 1) <= |words|
             && words[UNIT_WORDS * u + s.threads[l.t].bit / 64] == l.r0
             && words[TargetIndex(s.threads[l.t].bit, u)] == l.r1
    ensures var th, pc := s.threads[l.t], Apply(c, s, l).threads[l.t].pc;
            pc == if UnitPasses(words, th.bit, th.pc.pos % c.units) then Scan(th.pc.pos + 1) else Bump
  {
    hide Pow2;
  }

  function CountBumps(threads: seq<Thread>): nat {
    if threads == [] then 0 else (if threads[0].pc.Bump? then 1 else 0) + CountBumps(threads[1..])
  }

  lemma {:induction false} CountBumpsUpdate(threads: seq<Thread>, t: nat, th: Thread)
    requires t < |threads|
    ensures CountBumps(threads[t := th]) ==
            CountBumps(threads) - (if threads[t].pc.Bump? then 1 else 0) + if th.pc.Bump? then 1 else 0
  {
    if t == 0 {
      assert threads[t := th][1..] == threads[1..];
    } else {
      assert threads[t := th][1..] == threads[1..][t - 1 := th];
      CountBumpsUpdate(threads[1..], t - 1, th);
    }
  }

  lemma {:induction false} NoBumps(threads: seq<Thread>)
    requires forall t :: 0 <= t < |threads| ==> !threads[t].pc.Bump?
    ensures CountBumps(threads) == 0
  {
    if threads == [] {
    } else {
      NoBumps(threads[1..]);
    }
  }

  /** The reads among the first i steps that returned something else than the memory held. */
  ghost function Deviations(c: Config, ss: seq<State>, ls: seq<Label>, i: nat): nat
    requires Run(c, ss, ls) && i < |ss|
  {
    if i == 0 then 0
    else Deviations(c, ss, ls, i - 1) + if Faithful(c, ss[i - 1], ls[i - 1]) then 0 else 1
  }

  lemma NoReadNoBump(c: Config, s: State, l: Label)
    requires Shaped(c, s) && Enabled(c, s, l) && l.Advance? && !Reads(c, s, l)
    ensures !Apply(c, s, l).threads[l.t].pc.Bump?
  {
    if s.threads[l.t].pc.Scan? {
      ScanningMoves(c, s, l);
    } else if s.threads[l.t].pc.Enter? || InCritical(s.threads[l.t].pc) {
      UpdatingMoves(c, s, l);
    } else {
      PlainMoves(c, s, l);
    }
    hide Apply, Enabled, Reads;
  }

  lemma OnlyBumpCounts(c: Config, s: State, l: Label)
    requires Shaped(c, s) && Enabled(c, s, l) && l.Advance?
    ensures Apply(c, s, l).errFlag == s.errFlag + if s.threads[l.t].pc.Bump? then 1 else 0
  {
    hide Image, TargetIndex, Pow2;
  }

  lemma NoReadIsFaithful(c: Config, s: State, l: Label)
    requires Shaped(c, s) && Enabled(c, s, l) && l.Advance? && !Reads(c, s, l)
    ensures Faithful(c, s, l)
  {
    hide Image, TargetIndex, Pow2, Apply;
  }

  lemma ReadBumps(c: Config, s: State, l: Label)
    requires Shaped(c, s) && Enabled(c, s, l) && Reads(c, s, l)
    ensures Apply(c, s, l).threads[l.t].pc.Bump? <==> l.r0 != ALL_ONES || l.r1 != Pow2(s.threads[l.t].bit % 64)
  {
    hide Image, TargetIndex, Pow2;
  }

  lemma FaithfulRead(c: Config, s: State, l: Label)
    requires Inv(c, s) && Enabled(c, s, l) && Reads(c, s, l)
    ensures Faithful(c, s, l) <==> l.r0 == ALL_ONES && l.r1 == Pow2(s.threads[l.t].bit % 64)
  {
    var n, x := Passed(s), c.node[l.t];
    assert ThreadOk(c, n, s, l.t) && WordsOk(c, n, s, x) && OnNode(c, x);
    BitRange(n / 5, s.scanBit);
    PatternPasses(c.units, s.scanBit, s.threads[l.t].pc.pos % c.units);
    hide WordsOk, OwnerOk, Image, TraceUpTo;
  }

  /** The only way into the error branch is a read that deviates, and every such read takes it. */
  lemma AdvanceBumps(c: Config, s: State, l: Label)
    requires Inv(c, s) && Enabled(c, s, l) && l.Advance?
    ensures Apply(c, s, l).threads[l.t].pc.Bump? <==> !Faithful(c, s, l)
    ensures Apply(c, s, l).errFlag == s.errFlag + if s.threads[l.t].pc.Bump? then 1 else 0
  {
    if Reads(c, s, l) {
      ReadBumps(c, s, l);
      FaithfulRead(c, s, l);
    } else {
      NoReadNoBump(c, s, l);
      NoReadIsFaithful(c, s, l);
    }
    OnlyBumpCounts(c, s, l);
    hide InvAt, Apply, Enabled, Faithful;
  }

  lemma StepCountsDeviation(c: Config, s: State, l: Label)
    requires Inv(c, s) && Enabled(c, s, l)
    ensures Apply(c, s, l).errFlag + CountBumps(Apply(c, s, l).threads) ==
            s.errFlag + CountBumps(s.threads) + if Faithful(c, s, l) then 0 else 1
  {
    if l.Release? {
      NoBumps(s.threads);
      NoBumps(Apply(c, s, l).threads);
    } else {
      AdvanceBumps(c, s, l);
      OneThreadAdvances(c, s, l);
      CountBumpsUpdate(s.threads, l.t, Apply(c, s, l).threads[l.t]);
      hide Apply, Inv, Enabled, CountBumps;
    }
  }

  /** In every state of every run err_flag is the number of deviating reads, less those whose thread has still to add
      its own. */
  lemma {:induction false} ErrFlagCountsDeviations(c: Config, ss: seq<State>, ls: seq<Label>, i: nat)
    requires Run(c, ss, ls) && i < |ss|
    ensures ss[i].errFlag + CountBumps(ss[i].threads) == Deviations(c, ss, ls, i)
  {
    hide Apply, Faithful, Enabled, CountBumps, Inv;
    if i == 0 {
      InitBumps(c);
    } else {
      ErrFlagCountsDeviations(c, ss, ls, i - 1);
      RunKeepsInv(c, ss, ls, i - 1);
      StepCountsDeviation(c, ss[i - 1], ls[i - 1]);
    }
  }

  lemma InitBumps(c: Config)
    requires c.Valid()
    ensures Init(c).errFlag == 0 && CountBumps(Init(c).threads) == 0
  {
    NoBumps(Init(c).threads);
  }

  /** And so once no thread is in its scan part there is an error if and only if some read deviated. */
  lemma ErrorExactlyOnDeviation(c: Config, ss: seq<State>, ls: seq<Label>, i: nat)
    requires Run(c, ss, ls) && i < |ss|
    requires forall t :: 0 <= t < |ss[i].threads| ==> !ss[i].threads[t].pc.Bump?
    ensures ss[i].errFlag == Deviations(c, ss, ls, i)
    ensures ss[i].errFlag > 0 <==> exists j :: 0 <= j < i && !Faithful(c, ss[j], ls[j])
  {
    ErrFlagCountsDeviations(c, ss, ls, i);
    NoBumps(ss[i].threads);
    SomeDeviation(c, ss, ls, i);
  }

  lemma {:induction false} SomeDeviation(c: Config, ss: seq<State>, ls: seq<Label>, i: nat)
    requires Run(c, ss, ls) && i < |ss|
    ensures Deviations(c, ss, ls, i) > 0 <==> exists j :: 0 <= j < i && !Faithful(c, ss[j], ls[j])
  {
    hide Faithful;
    if i == 0 {
    } else {
      SomeDeviation(c, ss, ls, i - 1);
    }
  }

  // ----- every unit is read -----

  /** Step j is read number pos of thread t, after n barriers, and finds its unit good. */
  ghost predicate ReadAt(c: Config, ss: seq<State>, ls: seq<Label>, j: nat, t: nat, n: nat, pos: nat)
    requires Run(c, ss, ls) && j < |ls|
  {
    && Reads(c, ss[j], ls[j]) && ls[j].t == t
    && ss[j].threads[t].pc == Scan(pos) && |ss[j].threads[t].trace| == n
    && t < |ss[j + 1].threads| && ss[j + 1].threads[t].pc == Scan(pos + 1)
  }

  ghost predicate WasRead(c: Config, ss: seq<State>, ls: seq<Label>, i: nat, t: nat, n: nat, pos: nat)
    requires Run(c, ss, ls) && i < |ss|
  {
    exists j :: 0 <= j < i && ReadAt(c, ss, ls, j, t, n, pos)
  }

  ghost predicate ReadUpTo(c: Config, ss: seq<State>, ls: seq<Label>, i: nat, t: nat, n: nat, count: nat)
    requires Run(c, ss, ls) && i < |ss|
  {
    forall pos: nat :: pos < count ==> WasRead(c, ss, ls, i, t, n, pos)
  }

  lemma ReadStays(c: Config, ss: seq<State>, ls: seq<Label>, i: nat, t: nat, n: nat, count: nat)
    requires Run(c, ss, ls) && i + 1 < |ss| && ReadUpTo(c, ss, ls, i, t, n, count)
    ensures ReadUpTo(c, ss, ls, i + 1, t, n, count)
  {
    hide ReadAt;
    var next := i + 1;
    forall pos: nat | pos < count ensures WasRead(c, ss, ls, next, t, n, pos) {
      assert WasRead(c, ss, ls, i, t, n, pos);
      var j :| 0 <= j < i && ReadAt(c, ss, ls, j, t, n, pos);
      assert 0 <= j < next && ReadAt(c, ss, ls, j, t, n, pos);
    }
  }

  /** What a step does to the scan of thread t: it goes on by one read, reaches the barrier after the last one, or is
      given up after an error. */
  lemma ScanningMoves(c: Config, s: State, l: Label)
    requires Shaped(c, s) && Enabled(c, s, l) && l.Advance? && s.threads[l.t].pc.Scan?
    ensures var th, th' := s.threads[l.t], Apply(c, s, l).threads[l.t];
            && th'.trace == th.trace
            && (th'.pc.Scan? ==> th'.pc.pos == th.pc.pos + 1 && Reads(c, s, l))
            && (th'.pc == Wait(4) && c.node[l.t] >= 0 ==> th.pc == Scan(c.readCount))
            && (th'.pc.Bump? ==> Reads(c, s, l))
  {
    hide Image, TargetIndex, Pow2;
  }

  lemma UpdatingMoves(c: Config, s: State, l: Label)
    requires Shaped(c, s) && Enabled(c, s, l) && l.Advance?
    requires s.threads[l.t].pc.Enter? || InCritical(s.threads[l.t].pc)
    ensures var pc := Apply(c, s, l).threads[l.t].pc; !pc.Scan? && !pc.Bump? && pc != Wait(4)
  {
    hide Image, TargetIndex, Pow2;
  }

  lemma PlainMoves(c: Config, s: State, l: Label)
    requires Shaped(c, s) && Enabled(c, s, l) && l.Advance? && !s.threads[l.t].pc.Scan?
    requires !s.threads[l.t].pc.Enter? && !InCritical(s.threads[l.t].pc)
    ensures !Apply(c, s, l).threads[l.t].pc.Scan? && !Apply(c, s, l).threads[l.t].pc.Bump?
    ensures Apply(c, s, l).threads[l.t].pc == Wait(4) ==> !Apply(c, s, l).threads[l.t].ret
  {
    hide Image, TargetIndex, Pow2;
  }

  lemma OwnScanMoves(c: Config, s: State, l: Label)
    requires Shaped(c, s) && Enabled(c, s, l) && l.Advance?
    ensures var th, th' := s.threads[l.t], Apply(c, s, l).threads[l.t];
            && (th'.pc.Scan? ==>
                  th.pc.Scan? && th'.pc.pos == th.pc.pos + 1 && Reads(c, s, l) && th'.trace == th.trace)
            && (th'.pc == Wait(4) && th'.ret && c.node[l.t] >= 0 ==>
                  th.pc == Scan(c.readCount) && th'.trace == th.trace)
  {
    if s.threads[l.t].pc.Scan? {
      ScanningMoves(c, s, l);
    } else if s.threads[l.t].pc.Enter? || InCritical(s.threads[l.t].pc) {
      UpdatingMoves(c, s, l);
    } else {
      PlainMoves(c, s, l);
    }
    hide Apply, Enabled, Reads;
  }

  lemma OtherScanStays(c: Config, s: State, l: Label, t: nat)
    requires Shaped(c, s) && Enabled(c, s, l) && l.Advance? && t < |s.threads| && t != l.t
    ensures Apply(c, s, l).threads[t] == s.threads[t]
  {
    OneThreadAdvances(c, s, l);
    hide Apply, Enabled;
  }

  lemma ReleasedScan(c: Config, s: State, t: nat)
    requires Shaped(c, s) && Enabled(c, s, Release) && t < |s.threads|
    ensures var th, th' := s.threads[t], Apply(c, s, Release).threads[t];
            th.pc.Wait? && !th'.pc.Wait? && (th'.pc.Scan? ==> th'.pc.pos == 0)
  {
  }

  lemma ScanMoves(c: Config, s: State, l: Label, t: nat)
    requires Shaped(c, s) && Enabled(c, s, l) && t < |s.threads| && |Apply(c, s, l).threads| == |s.threads|
    ensures var th, th' := s.threads[t], Apply(c, s, l).threads[t];
            && (th'.pc.Scan? && th' != th ==>
                  if th.pc.Scan? then th'.pc.pos == th.pc.pos + 1 && Reads(c, s, l) && l.t == t && th'.trace == th.trace
                  else th'.pc.pos == 0)
            && (th'.pc == Wait(4) && th' != th && th'.ret && c.node[t] >= 0 ==>
                  th.pc == Scan(c.readCount) && th'.trace == th.trace)
  {
    if l.Release? {
      ReleasedScan(c, s, t);
    } else if t == l.t {
      OwnScanMoves(c, s, l);
    } else {
      OtherScanStays(c, s, l, t);
    }
    hide Apply, Enabled, Reads;
  }

  lemma ReadIsKept(c: Config, ss: seq<State>, ls: seq<Label>, i: nat, t: nat, n: nat, pos: nat)
    requires Run(c, ss, ls) && 0 < i < |ss| && ReadAt(c, ss, ls, i - 1, t, n, pos)
    ensures WasRead(c, ss, ls, i, t, n, pos)
  {
    hide ReadAt;
  }

  lemma ThreadCount(c: Config, s: State)
    requires Inv(c, s)
    ensures |s.threads| == |c.node|
  {
  }

  lemma {:induction false} ScanReadsAll(c: Config, ss: seq<State>, ls: seq<Label>, i: nat, t: nat)
    requires Run(c, ss, ls) && i < |ss| && t < |c.node| && c.node[t] >= 0
    ensures |ss[i].threads| == |c.node|
    ensures var th := ss[i].threads[t];
            && (th.pc.Scan? ==> ReadUpTo(c, ss, ls, i, t, |th.trace|, th.pc.pos))
            && (th.pc == Wait(4) && th.ret ==> ReadUpTo(c, ss, ls, i, t, |th.trace|, c.readCount))
  {
    hide Apply, Inv, Enabled, Reads, WasRead;
    RunKeepsInv(c, ss, ls, i);
    ThreadCount(c, ss[i]);
    if i == 0 {
    } else {
      ScanReadsAll(c, ss, ls, i - 1, t);
      RunKeepsInv(c, ss, ls, i - 1);
      ThreadCount(c, ss[i - 1]);
      ScanMoves(c, ss[i - 1], ls[i - 1], t);
      var th, th' := ss[i - 1].threads[t], ss[i].threads[t];
      if th.pc.Scan? {
        ReadStays(c, ss, ls, i - 1, t, |th.trace|, th.pc.pos);
        if th'.pc.Scan? && th' != th {
          assert ReadAt(c, ss, ls, i - 1, t, |th.trace|, th.pc.pos);
          ReadIsKept(c, ss, ls, i, t, |th.trace|, th.pc.pos);
        }
      } else if th.pc == Wait(4) && th.ret {
        ReadStays(c, ss, ls, i - 1, t, |th.trace|, c.readCount);
      }
    }
  }

  /** A thread that waits at the barrier after its scan without an error of its own has read every unit of its node in
      this issue, and found it good. */
  lemma CleanScanIsComplete(c: Config, ss: seq<State>, ls: seq<Label>, i: nat, t: nat, pos: nat)
    requires Run(c, ss, ls) && i < |ss| && t < |c.node| && c.node[t] >= 0 && |ss[i].threads| == |c.node|
    requires ss[i].threads[t].pc == Wait(4) && ss[i].threads[t].ret && pos < c.readCount
    ensures exists j :: 0 <= j < i && ReadAt(c, ss, ls, j, t, |ss[i].threads[t].trace|, pos)
  {
    ScanReadsAll(c, ss, ls, i, t);
    assert WasRead(c, ss, ls, i, t, |ss[i].threads[t].trace|, pos);
  }

  /** Before an issue and after its recover part every test space is again the one space_init wrote,
      whatever scans failed in between. */
  lemma SpaceRestored(c: Config, ss: seq<State>, ls: seq<Label>, i: nat, t: nat, x: nat)
    requires Run(c, ss, ls) && i < |ss| && t < |c.node| && |ss[i].threads| == |c.node| && x < |ss[i].nodes|
    requires var pc := ss[i].threads[t].pc; pc.Check? || pc.Top? || pc.WriteBit? || pc == Wait(1) || pc.Done?
    ensures ss[i].nodes[x].words == Blank(c.units)
    ensures !ss[i].nodes[x].updated && ss[i].nodes[x].owner == None
  {
    RunKeepsInv(c, ss, ls, i);
    var s := ss[i];
    assert ThreadOk(c, Passed(s), s, t);
    assert OwnerOk(c, Passed(s), s, x) && WordsOk(c, Passed(s), s, x);
    BlankIsEmptyRange(c.units, s.scanBit, 0);
  }

  /** The bits scanned: issue 2r of a run is on bit r mod 512, issue 2r + 1 on one of the special bits. */
  lemma ScanOrder(c: Config, ss: seq<State>, ls: seq<Label>, i: nat, t: nat)
    requires Run(c, ss, ls) && i < |ss| && t < |c.node| && |ss[i].threads| == |c.node|
    requires ss[i].threads[t].pc.Scan?
    ensures |ss[i].threads[t].trace| % 5 == 3
    ensures var m := |ss[i].threads[t].trace| / 5;
            if m % 2 == 0 then ss[i].threads[t].bit == (m / 2) % SCAN_BITS
            else ss[i].threads[t].bit in SPECIAL_BITS
  {
    RunKeepsInv(c, ss, ls, i);
    assert ThreadOk(c, Passed(ss[i]), ss[i], t);
  }

  /** With a loop count L > 0 and no error, threads that are done have done exactly 2L issues. */
  lemma DoneAfterAllLoops(c: Config, ss: seq<State>, ls: seq<Label>, i: nat, t: nat)
    requires Run(c, ss, ls) && i < |ss| && t < |c.node| && |ss[i].threads| == |c.node|
    requires ss[i].threads[t].pc.Done? && ss[i].errFlag == 0
    ensures c.loops > 0 && ss[i].threads[t].loopCnt == c.loops
    ensures |ss[i].threads[t].trace| == 10 * c.loops
  {
    RunKeepsInv(c, ss, ls, i);
    assert ThreadOk(c, Passed(ss[i]), ss[i], t);
  }

  // ----- termination with a positive loop count -----

  /** Upper bound on the steps a thread still takes before it blocks at its next barrier. */
  function Rank(c: Config, pc: Pc): nat {
    match pc
    case Check => 4
    case Top => 3
    case WriteBit => 2
    case ReadBit => 1
    case Enter(_) => c.units + 4
    case Test(_) => c.units + 3
    case Sweep(_, next) => if next <= c.units then c.units - next + 2 else 2
    case Leave(_) => 1
    case Scan(pos) => if pos <= c.readCount then c.readCount - pos + 2 else 2
    case Bump => 1
    case _ => 0
  }

  function SumRank(c: Config, threads: seq<Thread>): nat {
    if threads == [] then 0 else Rank(c, threads[0].pc) + SumRank(c, threads[1..])
  }

  lemma {:induction false} SumRankUpdate(c: Config, threads: seq<Thread>, t: nat, th: Thread)
    requires t < |threads|
    ensures SumRank(c, threads[t := th]) == SumRank(c, threads) - Rank(c, threads[t].pc) + Rank(c, th.pc)
  {
    if t == 0 {
      assert threads[t := th][1..] == threads[1..];
    } else {
      assert threads[t := th][1..] == threads[1..][t - 1 := th];
      SumRankUpdate(c, threads[1..], t - 1, th);
    }
  }

  function RankBound(c: Config): nat { c.units + c.readCount + 5 }

  lemma {:induction false} SumRankBound(c: Config, threads: seq<Thread>)
    ensures SumRank(c, threads) <= |threads| * RankBound(c)
  {
    if threads == [] {
    } else {
      SumRankBound(c, threads[1..]);
      assert |threads| * RankBound(c) == |threads[1..]| * RankBound(c) + RankBound(c);
    }
  }

  lemma OneThreadAdvances(c: Config, s: State, l: Label)
    requires Shaped(c, s) && Enabled(c, s, l) && l.Advance?
    ensures |Apply(c, s, l).threads| == |s.threads|
    ensures Apply(c, s, l).threads == s.threads[l.t := Apply(c, s, l).threads[l.t]]
    ensures Rank(c, Apply(c, s, l).threads[l.t].pc) < Rank(c, s.threads[l.t].pc)
  {
    hide Image, TargetIndex, Pow2;
  }

  lemma AdvanceLowersRank(c: Config, s: State, l: Label)
    requires Inv(c, s) && Enabled(c, s, l) && l.Advance?
    ensures SumRank(c, Apply(c, s, l).threads) < SumRank(c, s.threads)
  {
    hide Apply, Rank, SumRank;
    OneThreadAdvances(c, s, l);
    SumRankUpdate(c, s.threads, l.t, Apply(c, s, l).threads[l.t]);
  }

  function Potential(c: Config, s: State): int
    requires Shaped(c, s)
  {
    (10 * c.loops - Passed(s)) * (|c.node| * RankBound(c) + 1) + SumRank(c, s.threads)
  }

  lemma ReleaseSpends(left: int, k: int, before: int, after: int)
    requires after < k && 0 <= before
    ensures (left - 1) * k + after < left * k + before
  {
    assert (left - 1) * k == left * k - k;
  }

  lemma StepLowersPotential(c: Config, s: State, l: Label)
    requires Inv(c, s) && Enabled(c, s, l)
    ensures Shaped(c, Apply(c, s, l)) && Potential(c, Apply(c, s, l)) < Potential(c, s)
  {
    var s' := Apply(c, s, l);
    StepKeepsInv(c, s, l);
    if l.Release? {
      SumRankBound(c, s'.threads);
      ReleaseSpends(10 * c.loops - Passed(s), |c.node| * RankBound(c) + 1,
                    SumRank(c, s.threads), SumRank(c, s'.threads));
    } else {
      AdvanceLowersRank(c, s, l);
    }
  }

  lemma PassedBounded(c: Config, s: State)
    requires Inv(c, s) && c.loops > 0
    ensures Passed(s) <= 10 * c.loops
  {
    assert SharedOk(c, Passed(s), s);
  }

  lemma PotentialNonNegative(c: Config, s: State)
    requires Inv(c, s) && c.loops > 0
    ensures Potential(c, s) >= 0
  {
    PassedBounded(c, s);
    ProductOfNaturals(|c.node|, RankBound(c));
    ProductOfNaturals(10 * c.loops - Passed(s), |c.node| * RankBound(c) + 1);
  }

  lemma {:induction false} StepsSpent(c: Config, ss: seq<State>, ls: seq<Label>, i: nat)
    requires Run(c, ss, ls) && i < |ss|
    ensures Shaped(c, ss[i]) && Potential(c, ss[i]) <= Potential(c, Init(c)) - i
  {
    RunKeepsInv(c, ss, ls, i);
    if i == 0 {
    } else {
      StepsSpent(c, ss, ls, i - 1);
      RunKeepsInv(c, ss, ls, i - 1);
      StepLowersPotential(c, ss[i - 1], ls[i - 1]);
    }
  }

  /** With a positive loop count every run is finite: with NoDeadlock, all threads end in Done. */
  lemma RunsAreBounded(c: Config, ss: seq<State>, ls: seq<Label>)
    requires Run(c, ss, ls) && c.loops > 0
    ensures |ls| <= Potential(c, Init(c))
  {
    StepsSpent(c, ss, ls, |ls|);
    RunKeepsInv(c, ss, ls, |ls|);
    PotentialNonNegative(c, ss[|ls|]);
  }

  // ----- termination after a failed scan, whatever the loop count -----

  /** The barriers still ahead of a thread in the issue it is in. */
  function BarriersLeft(n: nat): nat { if n % 5 == 0 then 0 else 5 - n % 5 }

  function ErrorPotential(c: Config, s: State): nat
    requires Shaped(c, s)
  {
    BarriersLeft(Passed(s)) * (|c.node| * RankBound(c) + 1) + SumRank(c, s.threads)
  }

  /** Between issues an error lets no thread go to a barrier. */
  lemma NoReleaseBetween(c: Config, s: State)
    requires Inv(c, s) && Enabled(c, s, Release) && s.errFlag > 0
    ensures Passed(s) % 5 != 0
  {
    assert ThreadOk(c, Passed(s), s, 0);
  }

  lemma ErrorStays(c: Config, s: State, l: Label)
    requires Shaped(c, s) && Enabled(c, s, l)
    ensures Apply(c, s, l).errFlag >= s.errFlag
  {
    hide Image, TargetIndex, Pow2;
  }

  lemma OneBarrierLess(n: nat)
    requires n % 5 != 0
    ensures BarriersLeft(n + 1) == BarriersLeft(n) - 1
  {
  }

  lemma ErrorStepLowersPotential(c: Config, s: State, l: Label)
    requires Inv(c, s) && Enabled(c, s, l) && s.errFlag > 0
    ensures Shaped(c, Apply(c, s, l)) && Apply(c, s, l).errFlag > 0
    ensures ErrorPotential(c, Apply(c, s, l)) < ErrorPotential(c, s)
  {
    var s' := Apply(c, s, l);
    StepKeepsInv(c, s, l);
    ErrorStays(c, s, l);
    if l.Release? {
      NoReleaseBetween(c, s);
      OneBarrierLess(Passed(s));
      SumRankBound(c, s'.threads);
      ReleaseSpends(BarriersLeft(Passed(s)), |c.node| * RankBound(c) + 1,
                    SumRank(c, s.threads), SumRank(c, s'.threads));
    } else {
      AdvanceLowersRank(c, s, l);
    }
    hide Inv, Apply, Enabled;
  }

  lemma {:induction false} ErrorStepsSpent(c: Config, ss: seq<State>, ls: seq<Label>, i: nat, j: nat)
    requires Run(c, ss, ls) && i <= j < |ss| && ss[i].errFlag > 0
    ensures Shaped(c, ss[i]) && Shaped(c, ss[j]) && ss[j].errFlag > 0
    ensures ErrorPotential(c, ss[j]) <= ErrorPotential(c, ss[i]) - (j - i)
  {
    hide Apply, Enabled, ErrorPotential;
    RunKeepsInv(c, ss, ls, i);
    if j == i {
    } else {
      ErrorStepsSpent(c, ss, ls, i, j - 1);
      RunKeepsInv(c, ss, ls, j - 1);
      ErrorStepLowersPotential(c, ss[j - 1], ls[j - 1]);
    }
  }

  /** Once a scan has failed the run ends within a fixed number of steps, for every loop count, the endless one
      included; by EndsInDone all threads are done then. */
  lemma RunsEndAfterError(c: Config, ss: seq<State>, ls: seq<Label>, i: nat)
    requires Run(c, ss, ls) && i < |ss| && ss[i].errFlag > 0
    ensures Shaped(c, ss[i])
    ensures |ls| - i <= ErrorPotential(c, ss[i])
    ensures ErrorPotential(c, ss[i]) <= 4 * (|c.node| * RankBound(c) + 1) + |c.node| * RankBound(c)
  {
    ErrorStepsSpent(c, ss, ls, i, |ls|);
    SumRankBound(c, ss[i].threads);
    LeftTimes(BarriersLeft(Passed(ss[i])), |c.node| * RankBound(c) + 1);
  }

  lemma LeftTimes(left: nat, k: int)
    requires left <= 4 && k >= 0
    ensures left * k <= 4 * k
  {
  }

  /** Every thread is done at the end of a run that cannot be continued. */
  lemma EndsInDone(c: Config, ss: seq<State>, ls: seq<Label>)
    requires Run(c, ss, ls)
    requires Shaped(c, ss[|ls|]) ==> forall l :: !Enabled(c, ss[|ls|], l)
    ensures forall t :: 0 <= t < |ss[|ls|].threads| ==> ss[|ls|].threads[t].pc.Done?
  {
    NoDeadlock(c, ss, ls, |ls|);
  }
}
