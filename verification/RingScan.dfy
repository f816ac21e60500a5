/**
 * The SOC ring scan as interleaved steps of N threads that share a scan bit, an error
 * count, one barrier, and per NUMA node a test space, an update flag and a mutex.
 * A barrier wait is two steps: a thread arrives and blocks, and Release lets all N pass
 * once all N are blocked, whatever call site each of them is blocked at.
 */
module RingScan {
  import opened Numerals
  import opened RingImage

  const SPECIAL_BITS: seq<nat> := [394, 397, 405, 343, 394, 393, 392, 377]

  /** node[t] is the NUMA node of thread t, negative when the lookup fails for its core;
      readCount is the number of unit reads of one scan, loops the configured count (0: endless). */
  datatype Config = Config(node: seq<int>, nodeCount: nat, units: nat, readCount: nat, loops: nat) {
    predicate Valid() {
      && |node| >= 1
      && (forall t :: 0 <= t < |node| ==> node[t] < nodeCount)
      && (units == 0 ==> readCount == 0)
    }
  }

  datatype Pc =
    | Top                               // the loop condition
    | WriteBit                          // config->scan_bit = ...
    | Wait(site: nat)                   // blocked in pthread_barrier_wait, call sites 1 to 5 of one issue
    | ReadBit                           // the argument config->scan_bit of test_issue
    | Enter(recover: bool)              // numa_node test and mutex lock
    | Test(recover: bool)               // node_update_flag test
    | Sweep(recover: bool, next: nat)   // the pattern or clear loop, then the flag
    | Leave(recover: bool)              // mutex unlock
    | Scan(pos: nat)                    // the read loop
    | Bump                              // __atomic_add_fetch of err_flag
    | Check                             // the return of test_issue and what follows it
    | Done

  /** A barrier point: which of the two issues of a round, and which of its five waits. */
  datatype Point = Point(special: bool, site: nat)

  datatype Thread = Thread(
    pc: Pc, special: bool, seqId: nat, loopCnt: nat, tcFlag: bool, bit: nat, ret: bool,
    trace: seq<Point>)   // history of the barrier points passed

  datatype Node = Node(words: seq<nat>, updated: bool, owner: Option<nat>)

  datatype State = State(threads: seq<Thread>, scanBit: nat, errFlag: nat, nodes: seq<Node>)

  /** A step: Release, or thread t with the values the environment supplies (random() % 8,
      and the two words a scan read returns). */
  datatype Label = Release | Advance(t: nat, pick: nat, r0: nat, r1: nat)

  function FirstThread(): Thread { Thread(Top, false, 0, 0, true, 0, true, []) }

  function Init(c: Config): State
    requires c.Valid()
  {
    State(seq(|c.node|, _ => FirstThread()), 0, 0,
          seq(c.nodeCount, _ => Node(Blank(c.units), false, None)))
  }

  predicate Shaped(c: Config, s: State) {
    && c.Valid()
    && |s.threads| == |c.node|
    && |s.nodes| == c.nodeCount
    && (forall x :: 0 <= x < |s.nodes| ==> |s.nodes[x].words| == UNIT_WORDS * c.units)
  }

  /** What the barrier call site is followed by. */
  function AfterBarrier(site: nat): Pc {
    if site == 1 then ReadBit
    else if site == 2 then Enter(false)
    else if site == 3 then Scan(0)
    else if site == 4 then Enter(true)
    else Check
  }

  function ExitSite(recover: bool): nat { if recover then 5 else 3 }

  predicate Enabled(c: Config, s: State, l: Label)
    requires Shaped(c, s)
  {
    match l
    case Release => forall t :: 0 <= t < |s.threads| ==> s.threads[t].pc.Wait?
    case Advance(t, pick, r0, r1) =>
      t < |s.threads| && pick < |SPECIAL_BITS| &&
      var th := s.threads[t];
      match th.pc
      case Wait(_) => false
      case Done => false
      case Enter(_) => c.node[t] < 0 || s.nodes[c.node[t]].owner == None
      case Sweep(_, next) => c.node[t] >= 0 && th.bit < SCAN_BITS && next <= c.units
      case Test(_) => c.node[t] >= 0
      case Leave(_) => c.node[t] >= 0
      case Scan(pos) => pos <= c.readCount
      case _ => true
  }

  function Pass(th: Thread): Thread
    requires th.pc.Wait?
  {
    th.(pc := AfterBarrier(th.pc.site), trace := th.trace + [Point(th.special, th.pc.site)])
  }

  function SetThread(s: State, t: nat, th: Thread): State
    requires t < |s.threads|
  {
    s.(threads := s.threads[t := th])
  }

  function SetNode(s: State, x: nat, n: Node): State
    requires x < |s.nodes|
  {
    s.(nodes := s.nodes[x := n])
  }

  function Apply(c: Config, s: State, l: Label): State
    requires Shaped(c, s) && Enabled(c, s, l)
  {
    match l
    case Release =>
      s.(threads := seq(|s.threads|, t requires 0 <= t < |s.threads| => Pass(s.threads[t])))
    case Advance(t, pick, r0, r1) =>
      var th := s.threads[t];
      match th.pc
      case Top =>
        SetThread(s, t, th.(pc := if th.tcFlag && s.errFlag == 0 then WriteBit else Done))
      case WriteBit =>
        SetThread(s, t, th.(pc := Wait(1)))
          .(scanBit := if th.special then SPECIAL_BITS[pick] else th.seqId)
      case ReadBit =>
        SetThread(s, t, th.(pc := Wait(2), bit := s.scanBit, ret := true))
      case Enter(rec) =>
        if c.node[t] < 0 then SetThread(s, t, th.(pc := Wait(ExitSite(rec))))
        else
          var x := c.node[t];
          SetNode(SetThread(s, t, th.(pc := Test(rec))), x, s.nodes[x].(owner := Some(t)))
      case Test(rec) =>
        SetThread(s, t, th.(pc := if s.nodes[c.node[t]].updated == rec then Sweep(rec, 0) else Leave(rec)))
      case Sweep(rec, next) =>
        var x := c.node[t];
        if next < c.units then
          SetNode(SetThread(s, t, th.(pc := Sweep(rec, next + 1))), x,
                  s.nodes[x].(words := s.nodes[x].words[TargetIndex(th.bit, next) :=
                                         if rec then 0 else Pow2(th.bit % 64)]))
        else
          SetNode(SetThread(s, t, th.(pc := Leave(rec))), x, s.nodes[x].(updated := !rec))
      case Leave(rec) =>
        var x := c.node[t];
        SetNode(SetThread(s, t, th.(pc := Wait(ExitSite(rec)))), x, s.nodes[x].(owner := None))
      case Scan(pos) =>
        SetThread(s, t, th.(pc :=
          if c.node[t] < 0 || pos == c.readCount then Wait(4)
          else if r0 != ALL_ONES || r1 != Pow2(th.bit % 64) then Bump
          else Scan(pos + 1)))
      case Bump =>
        SetThread(s, t, th.(pc := Wait(4), ret := false)).(errFlag := s.errFlag + 1)
      case Check =>
        if s.errFlag != 0 || !th.ret then SetThread(s, t, th.(pc := Done))
        else if !th.special then
          SetThread(s, t, th.(pc := WriteBit, special := true, seqId := (th.seqId + 1) % SCAN_BITS))
        else
          var n := th.loopCnt + 1;
          SetThread(s, t, th.(pc := Top, special := false, loopCnt := n,
                              tcFlag := if c.loops != 0 && n >= c.loops then false else th.tcFlag))
  }

  /** The read of a scan step returns what the test space holds. */
  predicate Faithful(c: Config, s: State, l: Label)
    requires Shaped(c, s)
  {
    l.Advance? && l.t < |s.threads| && s.threads[l.t].pc.Scan? && c.node[l.t] >= 0 &&
    s.threads[l.t].pc.pos < c.readCount && s.threads[l.t].bit < SCAN_BITS ==>
      var u := s.threads[l.t].pc.pos % c.units;
      var words := s.nodes[c.node[l.t]].words;
      l.r0 == words[UNIT_WORDS * u + s.threads[l.t].bit / 64] &&
      l.r1 == words[TargetIndex(s.threads[l.t].bit, u)]
  }

  // ----- the invariant -----
  // n barriers have been passed by every thread; issue n / 5 is in segment n % 5.

  function TraceUpTo(n: nat): seq<Point> {
    seq(n, i requires 0 <= i < n => Point((i / 5) % 2 == 1, i % 5 + 1))
  }

  /** The loop flag a thread holds when it is about to start round m / 2. */
  predicate Live(c: Config, m: nat) { m == 0 || c.loops == 0 || m / 2 < c.loops }

  predicate Continue(c: Config, m: nat, err: nat) { err == 0 && (m % 2 == 1 || Live(c, m)) }

  /** The thread-local counters during issue m. */
  predicate Locals(m: nat, th: Thread) {
    && th.special == (m % 2 == 1)
    && th.loopCnt == m / 2
    && th.tcFlag
    && th.seqId == (if m % 2 == 1 then m / 2 + 1 else m / 2) % SCAN_BITS
  }

  /** The shared scan bit of issue m: the round number for the first issue of a round, else a special bit. */
  predicate BitOfIssue(m: nat, bit: nat) {
    if m % 2 == 1 then bit in SPECIAL_BITS else bit == (m / 2) % SCAN_BITS
  }

  predicate InCritical(pc: Pc) { pc.Test? || pc.Sweep? || pc.Leave? }

  predicate Between(c: Config, m: nat, s: State, th: Thread) {
    match th.pc
    case Check => m > 0 && Locals(m - 1, th) && (!th.ret ==> s.errFlag > 0)
    case Top => s.errFlag == 0 && m % 2 == 0 && !th.special && th.loopCnt == m / 2 && th.tcFlag == Live(c, m)
                && th.seqId == (m / 2) % SCAN_BITS
    case WriteBit => Continue(c, m, s.errFlag) && Locals(m, th)
    case Wait(site) => site == 1 && Continue(c, m, s.errFlag) && Locals(m, th) && BitOfIssue(m, s.scanBit)
    case Done =>
      if s.errFlag > 0 then m > 0 && Locals(m - 1, th)
      else m % 2 == 0 && !Live(c, m) && !th.special && th.loopCnt == m / 2
    case _ => false
  }

  predicate Owns(c: Config, s: State, t: nat)
    requires Shaped(c, s) && t < |s.threads|
  {
    c.node[t] >= 0 && s.nodes[c.node[t]].owner == Some(t)
  }

  /** A thread in the update (rec false) or recover (rec true) part of an issue. */
  predicate Updating(c: Config, s: State, t: nat, rec: bool)
    requires Shaped(c, s) && t < |s.threads|
  {
    var th := s.threads[t];
    match th.pc
    case Enter(r) => r == rec
    case Test(r) => r == rec && Owns(c, s, t)
    case Sweep(r, next) => r == rec && Owns(c, s, t) && next <= c.units && s.nodes[c.node[t]].updated == rec
    case Leave(r) => r == rec && Owns(c, s, t) && s.nodes[c.node[t]].updated != rec
    case Wait(site) => site == ExitSite(rec) && (c.node[t] >= 0 ==> s.nodes[c.node[t]].updated != rec)
    case _ => false
  }

  predicate ThreadOk(c: Config, n: nat, s: State, t: nat)
    requires Shaped(c, s) && t < |s.threads|
  {
    var th, m := s.threads[t], n / 5;
    th.trace == TraceUpTo(n) &&
    if n % 5 == 0 then Between(c, m, s, th)
    else
      && Locals(m, th)
      && (n % 5 >= 2 ==> th.bit == s.scanBit)
      && (!th.ret && n % 5 >= 2 ==> n % 5 >= 3 && s.errFlag > 0)
      && (n % 5 == 1 ==> th.pc.ReadBit? || (th.pc == Wait(2) && th.bit == s.scanBit && th.ret))
      && (n % 5 == 2 ==> Updating(c, s, t, false))
      && (n % 5 == 3 ==> (th.pc.Scan? && th.pc.pos <= c.readCount) || th.pc.Bump? || th.pc == Wait(4))
      && (n % 5 == 4 ==> Updating(c, s, t, true))
  }

  predicate OnNode(c: Config, x: nat) { exists t :: 0 <= t < |c.node| && c.node[t] == x }

  /** How far the owner of node x has got with its sweep. */
  function Progress(s: State, x: nat): nat
    requires x < |s.nodes|
  {
    match s.nodes[x].owner
    case None => 0
    case Some(t) => if t < |s.threads| && s.threads[t].pc.Sweep? then s.threads[t].pc.next else 0
  }

  predicate OwnerOk(c: Config, n: nat, s: State, x: nat)
    requires Shaped(c, s) && x < |s.nodes|
  {
    match s.nodes[x].owner
    case None => true
    case Some(t) => (n % 5 == 2 || n % 5 == 4) && t < |s.threads| && c.node[t] == x && InCritical(s.threads[t].pc)
  }

  predicate WordsOk(c: Config, n: nat, s: State, x: nat)
    requires Shaped(c, s) && x < |s.nodes|
  {
    var node, seg := s.nodes[x], n % 5;
    && (node.updated ==> seg >= 2 && OnNode(c, x))
    && (!node.updated ==> node.words == Image(c.units, s.scanBit, 0, if seg == 2 then Progress(s, x) else 0))
    && (node.updated ==> node.words == Image(c.units, s.scanBit, if seg == 4 then Progress(s, x) else 0, c.units))
    && (seg == 3 ==> (node.updated <==> OnNode(c, x)))
  }

  predicate SharedOk(c: Config, n: nat, s: State) {
    && (n % 5 != 0 ==> BitOfIssue(n / 5, s.scanBit))
    && (n % 5 == 1 || n % 5 == 2 ==> s.errFlag == 0)
    && (c.loops != 0 ==> n / 5 <= 2 * c.loops)
    && (n % 5 != 0 ==> Continue(c, n / 5, 0))
  }

  predicate InvAt(c: Config, n: nat, s: State) {
    && Shaped(c, s)
    && SharedOk(c, n, s)
    && (forall t :: 0 <= t < |s.threads| ==> ThreadOk(c, n, s, t))
    && (forall x :: 0 <= x < |s.nodes| ==> OwnerOk(c, n, s, x) && WordsOk(c, n, s, x))
  }

  /** The number of barriers passed, read off any thread's history. */
  function Passed(s: State): nat
    requires |s.threads| >= 1
  {
    |s.threads[0].trace|
  }

  predicate Inv(c: Config, s: State) {
    Shaped(c, s) && InvAt(c, Passed(s), s)
  }

  lemma InitInv(c: Config)
    requires c.Valid()
    ensures Inv(c, Init(c))
  {
    var s := Init(c);
    assert Passed(s) == 0;
    assert TraceUpTo(0) == [];
  }

  lemma BitRange(m: nat, bit: nat)
    requires BitOfIssue(m, bit)
    ensures bit < SCAN_BITS
  {
  }

  // ----- every step keeps the invariant -----

  lemma StepBetween(c: Config, n: nat, s: State, l: Label)
    requires InvAt(c, n, s) && Enabled(c, s, l) && l.Advance? && n % 5 == 0
    ensures InvAt(c, n, Apply(c, s, l))
  {
    var s' := Apply(c, s, l);
    BetweenSelf(c, n, s, l);
    forall t | 0 <= t < |s'.threads| ensures ThreadOk(c, n, s', t) {
      if t != l.t { BetweenOther(c, n, s, l, t); }
    }
    forall x | 0 <= x < |s'.nodes| ensures OwnerOk(c, n, s', x) && WordsOk(c, n, s', x) {
      assert OwnerOk(c, n, s, x) && WordsOk(c, n, s, x);
      BlankIsEmptyRange(c.units, s.scanBit, 0);
      BlankIsEmptyRange(c.units, s'.scanBit, 0);
    }
  }

  lemma BetweenSelf(c: Config, n: nat, s: State, l: Label)
    requires InvAt(c, n, s) && Enabled(c, s, l) && l.Advance? && n % 5 == 0
    ensures Shaped(c, Apply(c, s, l)) && SharedOk(c, n, Apply(c, s, l)) && ThreadOk(c, n, Apply(c, s, l), l.t)
    ensures Apply(c, s, l).nodes == s.nodes
  {
    assert ThreadOk(c, n, s, l.t);
    assert n % 5 == 0 && Between(c, n / 5, s, s.threads[l.t]);
    if s.threads[l.t].pc.Check? {
      CheckSelf(c, n, s, l);
    } else {
      BetweenMove(c, n, s, l);
    }
    hide Between, Apply;
  }

  lemma Halves(m: nat)
    requires m > 0
    ensures m % 2 == 1 ==> (m - 1) % 2 == 0 && (m - 1) / 2 == m / 2
    ensures m % 2 == 0 ==> (m - 1) % 2 == 1 && (m - 1) / 2 + 1 == m / 2
  {
  }

  /** After an issue a thread goes on to the next one, or leaves. */
  lemma CheckSelf(c: Config, n: nat, s: State, l: Label)
    requires InvAt(c, n, s) && Enabled(c, s, l) && l.Advance? && n % 5 == 0 && s.threads[l.t].pc.Check?
    requires Between(c, n / 5, s, s.threads[l.t])
    ensures Shaped(c, Apply(c, s, l)) && SharedOk(c, n, Apply(c, s, l)) && Apply(c, s, l).nodes == s.nodes
    ensures Apply(c, s, l).threads[l.t].trace == s.threads[l.t].trace
    ensures Between(c, n / 5, Apply(c, s, l), Apply(c, s, l).threads[l.t])
  {
    hide ThreadOk, Image, TraceUpTo, WordsOk, OwnerOk, TargetIndex, Pow2;
    var t, s' := l.t, Apply(c, s, l);
    CheckedThread(c, n / 5, s, s.threads[t], s'.threads[t]);
    hide Between;
    SameBetween(c, n / 5, s, s', s'.threads[t]);
  }

  /** The predicate looks at the shared error flag and scan bit only. */
  lemma SameBetween(c: Config, m: nat, s: State, s': State, th: Thread)
    requires s.errFlag == s'.errFlag && s.scanBit == s'.scanBit && Between(c, m, s, th)
    ensures Between(c, m, s', th)
  {
  }

  /** The thread after the check: done, on to the special bit, or on to the next round. */
  lemma CheckedThread(c: Config, m: nat, s: State, th: Thread, th': Thread)
    requires th.pc.Check? && Between(c, m, s, th)
    requires if s.errFlag != 0 || !th.ret then th' == th.(pc := Done)
             else if !th.special then
               th' == th.(pc := WriteBit, special := true, seqId := (th.seqId + 1) % SCAN_BITS)
             else
               th' == th.(pc := Top, special := false, loopCnt := th.loopCnt + 1,
                          tcFlag := if c.loops != 0 && th.loopCnt + 1 >= c.loops then false else th.tcFlag)
    ensures Between(c, m, s, th')
  {
    Halves(m);
    if s.errFlag == 0 && th.ret {
      if th.special {
        NextRound(c, m, th);
      } else {
        SecondIssue(m, th);
      }
    }
  }

  lemma NextRound(c: Config, m: nat, th: Thread)
    requires m > 0 && Locals(m - 1, th) && th.special
    ensures m % 2 == 0 && th.loopCnt + 1 == m / 2 && th.seqId == (m / 2) % SCAN_BITS
  {
    Halves(m);
  }

  lemma SecondIssue(m: nat, th: Thread)
    requires m > 0 && Locals(m - 1, th) && !th.special
    ensures m % 2 == 1 && th.loopCnt == m / 2 && (th.seqId + 1) % SCAN_BITS == (m / 2 + 1) % SCAN_BITS
  {
    Halves(m);
    NextModulo(m / 2);
  }

  lemma NextModulo(r: nat)
    ensures (r % SCAN_BITS + 1) % SCAN_BITS == (r + 1) % SCAN_BITS
  {
  }

  lemma BetweenMove(c: Config, n: nat, s: State, l: Label)
    requires InvAt(c, n, s) && Enabled(c, s, l) && l.Advance? && n % 5 == 0 && !s.threads[l.t].pc.Check?
    requires Between(c, n / 5, s, s.threads[l.t])
    ensures Shaped(c, Apply(c, s, l)) && SharedOk(c, n, Apply(c, s, l)) && Apply(c, s, l).nodes == s.nodes
    ensures Apply(c, s, l).threads[l.t].trace == s.threads[l.t].trace
    ensures Between(c, n / 5, Apply(c, s, l), Apply(c, s, l).threads[l.t])
  {
    hide ThreadOk, Image, TraceUpTo, WordsOk, OwnerOk, TargetIndex, Pow2;
  }

  lemma BetweenOther(c: Config, n: nat, s: State, l: Label, t: nat)
    requires InvAt(c, n, s) && Enabled(c, s, l) && l.Advance? && n % 5 == 0
    requires t < |s.threads| && t != l.t
    ensures Shaped(c, Apply(c, s, l)) && ThreadOk(c, n, Apply(c, s, l), t)
  {
    assert ThreadOk(c, n, s, l.t) && ThreadOk(c, n, s, t);
    assert Apply(c, s, l).threads[t] == s.threads[t];
  }

  lemma StepReadBit(c: Config, n: nat, s: State, l: Label)
    requires InvAt(c, n, s) && Enabled(c, s, l) && l.Advance? && n % 5 == 1
    ensures InvAt(c, n, Apply(c, s, l))
  {
    var s', t := Apply(c, s, l), l.t;
    assert ThreadOk(c, n, s, t);
    forall x | 0 <= x < |s'.nodes| ensures OwnerOk(c, n, s', x) && WordsOk(c, n, s', x) {
      assert OwnerOk(c, n, s, x) && WordsOk(c, n, s, x);
    }
    forall t' | 0 <= t' < |s'.threads| ensures ThreadOk(c, n, s', t') {
      assert ThreadOk(c, n, s, t');
    }
  }

  lemma StepScan(c: Config, n: nat, s: State, l: Label)
    requires InvAt(c, n, s) && Enabled(c, s, l) && l.Advance? && n % 5 == 3
    ensures InvAt(c, n, Apply(c, s, l))
  {
    var s', t := Apply(c, s, l), l.t;
    assert ThreadOk(c, n, s, t);
    forall x | 0 <= x < |s'.nodes| ensures OwnerOk(c, n, s', x) && WordsOk(c, n, s', x) {
      assert OwnerOk(c, n, s, x) && WordsOk(c, n, s, x);
    }
    forall t' | 0 <= t' < |s'.threads| ensures ThreadOk(c, n, s', t') {
      assert ThreadOk(c, n, s, t');
    }
  }

  lemma StepUpdating(c: Config, n: nat, s: State, l: Label)
    requires InvAt(c, n, s) && Enabled(c, s, l) && l.Advance? && (n % 5 == 2 || n % 5 == 4)
    ensures InvAt(c, n, Apply(c, s, l))
  {
    var s' := Apply(c, s, l);
    assert Shaped(c, s') && SharedOk(c, n, s') by {
      assert ThreadOk(c, n, s, l.t);
    }
    forall t | 0 <= t < |s'.threads| ensures ThreadOk(c, n, s', t) {
      if t == l.t { UpdateSelf(c, n, s, l); } else { UpdateOther(c, n, s, l, t); }
    }
    forall x | 0 <= x < |s'.nodes| ensures OwnerOk(c, n, s', x) && WordsOk(c, n, s', x) {
      if x == c.node[l.t] { UpdateNode(c, n, s, l); } else { OtherNode(c, n, s, l, x); }
    }
  }

  lemma UpdateSelf(c: Config, n: nat, s: State, l: Label)
    requires InvAt(c, n, s) && Enabled(c, s, l) && l.Advance? && (n % 5 == 2 || n % 5 == 4)
    ensures Shaped(c, Apply(c, s, l)) && ThreadOk(c, n, Apply(c, s, l), l.t)
  {
    assert ThreadOk(c, n, s, l.t);
    UpdateSelfMoves(c, n, s, l);
    UpdateKeepsLocals(c, s, l);
    hide Apply, Updating, Between, TraceUpTo;
  }

  lemma UpdateKeepsLocals(c: Config, s: State, l: Label)
    requires Shaped(c, s) && Enabled(c, s, l) && l.Advance?
    requires var pc := s.threads[l.t].pc; pc.Enter? || InCritical(pc) || pc.Wait?
    ensures var s' := Apply(c, s, l);
            && Shaped(c, s') && |s'.threads| == |s.threads| && s'.errFlag == s.errFlag && s'.scanBit == s.scanBit
            && s'.threads[l.t] == s.threads[l.t].(pc := s'.threads[l.t].pc)
  {
    hide Image, TraceUpTo, Pow2;
  }

  lemma UpdateSelfMoves(c: Config, n: nat, s: State, l: Label)
    requires Shaped(c, s) && Enabled(c, s, l) && l.Advance? && (n % 5 == 2 || n % 5 == 4)
    requires ThreadOk(c, n, s, l.t)
    ensures Shaped(c, Apply(c, s, l)) && Updating(c, Apply(c, s, l), l.t, n % 5 == 4)
    ensures s.threads[l.t].pc.Enter? || InCritical(s.threads[l.t].pc)
  {
    hide OwnerOk, WordsOk, SharedOk, Image, TraceUpTo, Between;
  }

  /** A thread inside a critical section keeps its node's owner and flag from the others. */
  lemma UpdateOther(c: Config, n: nat, s: State, l: Label, t: nat)
    requires InvAt(c, n, s) && Enabled(c, s, l) && l.Advance? && (n % 5 == 2 || n % 5 == 4)
    requires t < |s.threads| && t != l.t
    ensures Shaped(c, Apply(c, s, l)) && ThreadOk(c, n, Apply(c, s, l), t)
  {
    assert ThreadOk(c, n, s, l.t) && ThreadOk(c, n, s, t);
    OtherThread(c, n, s, l, t);
  }

  lemma OtherThread(c: Config, n: nat, s: State, l: Label, t: nat)
    requires Shaped(c, s) && Enabled(c, s, l) && l.Advance? && (n % 5 == 2 || n % 5 == 4)
    requires t < |s.threads| && t != l.t && ThreadOk(c, n, s, l.t) && ThreadOk(c, n, s, t)
    ensures Shaped(c, Apply(c, s, l)) && ThreadOk(c, n, Apply(c, s, l), t)
  {
    hide Image, TraceUpTo, Pow2, Between;
    assert Apply(c, s, l).threads[t] == s.threads[t];
  }

  lemma OtherNode(c: Config, n: nat, s: State, l: Label, x: nat)
    requires InvAt(c, n, s) && Enabled(c, s, l) && l.Advance? && (n % 5 == 2 || n % 5 == 4)
    requires x < |s.nodes| && x != c.node[l.t]
    ensures Shaped(c, Apply(c, s, l)) && OwnerOk(c, n, Apply(c, s, l), x) && WordsOk(c, n, Apply(c, s, l), x)
  {
    assert ThreadOk(c, n, s, l.t) && OwnerOk(c, n, s, x);
    OtherNodeSame(c, n, s, l, x);
    hide Apply, Image, TraceUpTo, Pow2, Between, Updating, Progress;
    assert OwnerOk(c, n, s, x) && WordsOk(c, n, s, x);
  }

  lemma OtherNodeSame(c: Config, n: nat, s: State, l: Label, x: nat)
    requires Shaped(c, s) && Enabled(c, s, l) && l.Advance? && (n % 5 == 2 || n % 5 == 4)
    requires ThreadOk(c, n, s, l.t) && x < |s.nodes| && x != c.node[l.t] && OwnerOk(c, n, s, x)
    ensures Shaped(c, Apply(c, s, l)) && Apply(c, s, l).nodes[x] == s.nodes[x]
    ensures Apply(c, s, l).scanBit == s.scanBit && Progress(Apply(c, s, l), x) == Progress(s, x)
    ensures OwnerOk(c, n, Apply(c, s, l), x)
  {
    hide Image, TraceUpTo, Pow2, Between;
  }

  /** The node an updating thread touches. */
  lemma UpdateNode(c: Config, n: nat, s: State, l: Label)
    requires InvAt(c, n, s) && Enabled(c, s, l) && l.Advance? && (n % 5 == 2 || n % 5 == 4)
    requires c.node[l.t] >= 0
    ensures Shaped(c, Apply(c, s, l))
    ensures OwnerOk(c, n, Apply(c, s, l), c.node[l.t]) && WordsOk(c, n, Apply(c, s, l), c.node[l.t])
  {
    var x := c.node[l.t];
    assert ThreadOk(c, n, s, l.t) && OwnerOk(c, n, s, x) && WordsOk(c, n, s, x);
    assert OnNode(c, x);
    if s.threads[l.t].pc.Sweep? {
      SweepNode(c, n, s, l);
    } else {
      hide Image, TraceUpTo, Pow2, TargetIndex;
    }
  }

  lemma SweepNode(c: Config, n: nat, s: State, l: Label)
    requires InvAt(c, n, s) && Enabled(c, s, l) && l.Advance? && (n % 5 == 2 || n % 5 == 4)
    requires c.node[l.t] >= 0 && s.threads[l.t].pc.Sweep?
    ensures Shaped(c, Apply(c, s, l))
    ensures OwnerOk(c, n, Apply(c, s, l), c.node[l.t]) && WordsOk(c, n, Apply(c, s, l), c.node[l.t])
  {
    var x, th, bit := c.node[l.t], s.threads[l.t], s.scanBit;
    assert ThreadOk(c, n, s, l.t) && OwnerOk(c, n, s, x) && WordsOk(c, n, s, x);
    BitRange(n / 5, bit);
    assert OnNode(c, x) && Progress(s, x) == th.pc.next;
    if th.pc.next < c.units {
      if th.pc.recover { ClearOne(c.units, bit, th.pc.next); } else { FillOne(c.units, bit, th.pc.next); }
    } else {
      BlankIsEmptyRange(c.units, bit, c.units);
      BlankIsEmptyRange(c.units, bit, 0);
    }
    hide Image, TraceUpTo, Pow2, TargetIndex;
  }

  lemma StepRelease(c: Config, n: nat, s: State)
    requires InvAt(c, n, s) && Enabled(c, s, Release)
    ensures InvAt(c, n + 1, Apply(c, s, Release))
  {
    hide WordsOk, OwnerOk, Image;
    var s', n1 := Apply(c, s, Release), n + 1;
    assert ThreadOk(c, n, s, 0);
    forall x | 0 <= x < |s'.nodes| ensures OwnerOk(c, n1, s', x) && WordsOk(c, n1, s', x) {
      ReleaseNode(c, n, s, x);
    }
    forall t | 0 <= t < |s'.threads| ensures ThreadOk(c, n1, s', t) {
      ReleaseThread(c, n, s, t);
    }
  }

  lemma ReleaseThread(c: Config, n: nat, s: State, t: nat)
    requires InvAt(c, n, s) && Enabled(c, s, Release) && t < |s.threads|
    ensures Shaped(c, Apply(c, s, Release)) && ThreadOk(c, n + 1, Apply(c, s, Release), t)
  {
    hide WordsOk, OwnerOk, Image;
    assert ThreadOk(c, n, s, t);
    assert TraceUpTo(n + 1) == TraceUpTo(n) + [Point((n / 5) % 2 == 1, n % 5 + 1)];
  }

  /** With every thread blocked, all locks are free and the nodes that threads run on are all in one state. */
  lemma ReleaseNode(c: Config, n: nat, s: State, x: nat)
    requires InvAt(c, n, s) && Enabled(c, s, Release) && x < |s.nodes|
    ensures Shaped(c, Apply(c, s, Release))
    ensures OwnerOk(c, n + 1, Apply(c, s, Release), x) && WordsOk(c, n + 1, Apply(c, s, Release), x)
  {
    assert OwnerOk(c, n, s, x) && WordsOk(c, n, s, x);
    if OnNode(c, x) {
      var t :| 0 <= t < |c.node| && c.node[t] == x;
      assert ThreadOk(c, n, s, t);
    }
    BlankIsEmptyRange(c.units, s.scanBit, 0);
  }

  lemma StepKeepsInv(c: Config, s: State, l: Label)
    requires Inv(c, s) && Enabled(c, s, l)
    ensures Inv(c, Apply(c, s, l))
    ensures Passed(Apply(c, s, l)) == Passed(s) + if l.Release? then 1 else 0
  {
    var n := Passed(s);
    assert ThreadOk(c, n, s, 0);
    if l.Release? { StepRelease(c, n, s); }
    else if n % 5 == 0 { StepBetween(c, n, s, l); }
    else if n % 5 == 1 { StepReadBit(c, n, s, l); }
    else if n % 5 == 3 { StepScan(c, n, s, l); }
    else { StepUpdating(c, n, s, l); }
    assert ThreadOk(c, if l.Release? then n + 1 else n, Apply(c, s, l), 0);
  }
}
