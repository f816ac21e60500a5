/**
 * The NUMA nodes of the ring scan when a thread may be on another node at each call of sched_getcpu, as the last thread
 * created can be until it is bound to its core. A call is one step here: the barriers keep the three phases of an issue
 * apart, and the mutex of a node keeps the calls on it apart.
 */
module RingNodes {
  import opened Numerals
  import opened RingImage

  datatype Space = Space(words: seq<nat>, updated: bool)

  /** The nodes the threads see in the update, scan and recover part of one issue, in the order of their turns; a
      negative one is a failed lookup. */
  datatype Calls = Calls(update: seq<int>, scan: seq<int>, recover: seq<int>)

  /** The update part and the recover part on the node of one thread. */
  function Filled(s: Space, bit: nat, units: nat): Space {
    if s.updated then s else Space(Overwrite(s.words, bit, Pow2(bit % 64), units), true)
  }

  function Cleared(s: Space, bit: nat, units: nat): Space {
    if s.updated then Space(Overwrite(s.words, bit, 0, units), false) else s
  }

  /** One call after the other. */
  function CallAll<T>(spaces: seq<T>, call: T -> T, nodes: seq<int>): (after: seq<T>)
    ensures |after| == |spaces|
  {
    if nodes == [] then spaces
    else
      var before, x := CallAll(spaces, call, nodes[..|nodes| - 1]), nodes[|nodes| - 1];
      if 0 <= x < |before| then before[x := call(before[x])] else before
  }

  /** A call that the flag makes idempotent: what happens to a node does not depend on how many threads are on it, nor
      on their order. */
  lemma {:induction false} CallAllAt<T>(spaces: seq<T>, call: T -> T, nodes: seq<int>, x: nat)
    requires x < |spaces| && call(call(spaces[x])) == call(spaces[x])
    ensures CallAll(spaces, call, nodes)[x] == if x in nodes then call(spaces[x]) else spaces[x]
  {
    if nodes == [] {
    } else {
      CallAllAt(spaces, call, nodes[..|nodes| - 1], x);
      assert nodes == nodes[..|nodes| - 1] + [nodes[|nodes| - 1]];
    }
  }

  /** The spaces after the first n issues, and those that issue n scans. */
  function After(units: nat, nodeCount: nat, calls: seq<Calls>, bits: seq<nat>, n: nat): (spaces: seq<Space>)
    requires n <= |calls| && n <= |bits|
    ensures |spaces| == nodeCount
    decreases n, 0
  {
    if n == 0 then seq(nodeCount, _ => Space(Blank(units), false))
    else
      CallAll(Scanned(units, nodeCount, calls, bits, n - 1), (s: Space) => Cleared(s, bits[n - 1], units),
              calls[n - 1].recover)
  }

  function Scanned(units: nat, nodeCount: nat, calls: seq<Calls>, bits: seq<nat>, n: nat): (spaces: seq<Space>)
    requires n < |calls| && n < |bits|
    ensures |spaces| == nodeCount
    decreases n, 1
  {
    CallAll(After(units, nodeCount, calls, bits, n), (s: Space) => Filled(s, bits[n], units), calls[n].update)
  }

  /** A scan of faithful memory finds nothing wrong. */
  ghost predicate Passes(words: seq<nat>, bit: nat, units: nat)
    requires bit < SCAN_BITS && |words| == UNIT_WORDS * units
  {
    forall u: nat :: u < units ==> UnitPasses(words, bit, u)
  }

  // ----- what a space shows -----

  /** The second lines of a space: which bit each of the eight words shows, if any. */
  datatype View = View(line: seq<Option<nat>>, updated: bool)

  predicate ValidView(v: View) {
    && |v.line| == LINE_WORDS
    && forall w :: 0 <= w < LINE_WORDS && v.line[w].Some? ==> v.line[w].value < SCAN_BITS && v.line[w].value / 64 == w
  }

  function FilledView(v: View, bit: nat): (r: View)
    requires bit < SCAN_BITS && ValidView(v)
    ensures ValidView(r)
  {
    if v.updated then v else View(v.line[bit / 64 := Some(bit)], true)
  }

  function ClearedView(v: View, bit: nat): (r: View)
    requires bit < SCAN_BITS && ValidView(v)
    ensures ValidView(r)
  {
    if v.updated then View(v.line[bit / 64 := None], false) else v
  }

  predicate ValidBits(bits: seq<nat>) { forall i :: 0 <= i < |bits| ==> bits[i] < SCAN_BITS }

  function ViewAfter(calls: seq<Calls>, bits: seq<nat>, n: nat, x: nat): (v: View)
    requires n <= |calls| && n <= |bits| && ValidBits(bits)
    ensures ValidView(v)
    decreases n, 0
  {
    if n == 0 then View(seq(LINE_WORDS, _ => None), false)
    else
      var v := ViewScanned(calls, bits, n - 1, x);
      if x in calls[n - 1].recover then ClearedView(v, bits[n - 1]) else v
  }

  function ViewScanned(calls: seq<Calls>, bits: seq<nat>, n: nat, x: nat): (v: View)
    requires n < |calls| && n < |bits| && ValidBits(bits)
    ensures ValidView(v)
    decreases n, 1
  {
    var v := ViewAfter(calls, bits, n, x);
    if x in calls[n].update then FilledView(v, bits[n]) else v
  }

  function ShownWord(line: seq<Option<nat>>, j: nat): nat
    requires |line| == LINE_WORDS
  {
    if j % UNIT_WORDS < LINE_WORDS then ALL_ONES
    else match line[j % UNIT_WORDS - LINE_WORDS] case None => 0 case Some(b) => Pow2(b % 64)
  }

  function Shown(units: nat, v: View): Space
    requires ValidView(v)
  {
    Space(seq(UNIT_WORDS * units, j requires 0 <= j < UNIT_WORDS * units => ShownWord(v.line, j)), v.updated)
  }

  lemma BlankShown(units: nat)
    ensures Shown(units, View(seq(LINE_WORDS, _ => None), false)) == Space(Blank(units), false)
  {
    hide Pow2;
  }

  lemma FilledShown(units: nat, v: View, bit: nat)
    requires bit < SCAN_BITS && ValidView(v)
    ensures Filled(Shown(units, v), bit, units) == Shown(units, FilledView(v, bit))
  {
    hide Pow2;
    var a, b := Filled(Shown(units, v), bit, units).words, Shown(units, FilledView(v, bit)).words;
    assert forall j :: 0 <= j < |a| ==> a[j] == b[j];
  }

  lemma ClearedShown(units: nat, v: View, bit: nat)
    requires bit < SCAN_BITS && ValidView(v)
    ensures Cleared(Shown(units, v), bit, units) == Shown(units, ClearedView(v, bit))
  {
    hide Pow2;
    var a, b := Cleared(Shown(units, v), bit, units).words, Shown(units, ClearedView(v, bit)).words;
    assert forall j :: 0 <= j < |a| ==> a[j] == b[j];
  }

  /** The memory is what the view shows, at every point of every run. */
  lemma {:induction false} AfterShown(units: nat, nodeCount: nat, calls: seq<Calls>, bits: seq<nat>, n: nat, x: nat)
    requires n <= |calls| && n <= |bits| && ValidBits(bits) && x < nodeCount
    ensures After(units, nodeCount, calls, bits, n)[x] == Shown(units, ViewAfter(calls, bits, n, x))
    decreases n, 0
  {
    hide Shown, Overwrite, FilledView, ClearedView, ValidView;
    if n == 0 {
      BlankShown(units);
    } else {
      ScannedShown(units, nodeCount, calls, bits, n - 1, x);
      ClearedShown(units, ViewScanned(calls, bits, n - 1, x), bits[n - 1]);
      CallAllAt(Scanned(units, nodeCount, calls, bits, n - 1), (s: Space) => Cleared(s, bits[n - 1], units),
                calls[n - 1].recover, x);
    }
  }

  lemma {:induction false} ScannedShown(units: nat, nodeCount: nat, calls: seq<Calls>, bits: seq<nat>, n: nat, x: nat)
    requires n < |calls| && n < |bits| && ValidBits(bits) && x < nodeCount
    ensures Scanned(units, nodeCount, calls, bits, n)[x] == Shown(units, ViewScanned(calls, bits, n, x))
    decreases n, 1
  {
    hide Shown, Overwrite, FilledView, ClearedView, ValidView;
    AfterShown(units, nodeCount, calls, bits, n, x);
    FilledShown(units, ViewAfter(calls, bits, n, x), bits[n]);
    CallAllAt(After(units, nodeCount, calls, bits, n), (s: Space) => Filled(s, bits[n], units), calls[n].update, x);
  }

  lemma ShownPasses(units: nat, v: View, bit: nat)
    requires units > 0 && bit < SCAN_BITS && ValidView(v)
    ensures Passes(Shown(units, v).words, bit, units) <==> v.line[bit / 64] == Some(bit)
  {
    hide Pow2;
    forall u: nat | u < units
      ensures UnitPasses(Shown(units, v).words, bit, u) <==> v.line[bit / 64] == Some(bit)
    {
      ShownUnit(units, v, bit, u);
    }
    assert UnitPasses(Shown(units, v).words, bit, 0) <==> v.line[bit / 64] == Some(bit);
  }

  lemma ShownUnit(units: nat, v: View, bit: nat, u: nat)
    requires u < units && bit < SCAN_BITS && ValidView(v)
    ensures UnitPasses(Shown(units, v).words, bit, u) <==> v.line[bit / 64] == Some(bit)
  {
    var w := bit / 64;
    assert (UNIT_WORDS * u + w) % UNIT_WORDS == w;
    assert TargetIndex(bit, u) % UNIT_WORDS == LINE_WORDS + w;
    match v.line[w] {
      case None =>
      case Some(b) =>
        if b % 64 < bit % 64 { Pow2Monotone(b % 64, bit % 64); }
        if bit % 64 < b % 64 { Pow2Monotone(bit % 64, b % 64); }
    }
    hide Pow2;
  }

  /** A scan of a node passes exactly when the node shows the bit under test. */
  lemma ScanPassesExactly(units: nat, nodeCount: nat, calls: seq<Calls>, bits: seq<nat>, n: nat, x: nat)
    requires n < |calls| && n < |bits| && ValidBits(bits) && x < nodeCount && units > 0
    ensures |Scanned(units, nodeCount, calls, bits, n)[x].words| == UNIT_WORDS * units
    ensures Passes(Scanned(units, nodeCount, calls, bits, n)[x].words, bits[n], units) <==>
              ViewScanned(calls, bits, n, x).line[bits[n] / 64] == Some(bits[n])
  {
    ScannedShown(units, nodeCount, calls, bits, n, x);
    ShownPasses(units, ViewScanned(calls, bits, n, x), bits[n]);
    hide ViewScanned, Scanned;
  }

  // ----- no false alarm, by the nodes alone -----

  /** Every scan of the run passes on faithful memory. */
  ghost predicate NoAlarm(units: nat, nodeCount: nat, calls: seq<Calls>, bits: seq<nat>)
    requires |bits| == |calls| && ValidBits(bits)
  {
    forall n, x: nat :: 0 <= n < |calls| && x < nodeCount && x in calls[n].scan ==>
      ScannedPasses(units, nodeCount, calls, bits, n, x)
  }

  ghost predicate ScannedPasses(units: nat, nodeCount: nat, calls: seq<Calls>, bits: seq<nat>, n: nat, x: nat)
    requires n < |calls| && n < |bits| && ValidBits(bits) && x < nodeCount
  {
    ScannedShown(units, nodeCount, calls, bits, n, x);
    Passes(Scanned(units, nodeCount, calls, bits, n)[x].words, bits[n], units)
  }

  /** The last issue before n that updated or recovered x did not recover it. */
  predicate LeftFilled(calls: seq<Calls>, n: nat, x: nat)
    requires n <= |calls|
  {
    n > 0 && x !in calls[n - 1].recover && (x in calls[n - 1].update || LeftFilled(calls, n - 1, x))
  }

  lemma {:induction false} FlagMeansLeft(calls: seq<Calls>, bits: seq<nat>, n: nat, x: nat)
    requires n <= |calls| && n <= |bits| && ValidBits(bits)
    ensures ViewAfter(calls, bits, n, x).updated == LeftFilled(calls, n, x)
  {
    if n == 0 {
    } else {
      FlagMeansLeft(calls, bits, n - 1, x);
    }
  }

  /** Whatever is scanned was filled in the same issue, and not left filled before. */
  predicate FilledWhereScanned(nodeCount: nat, calls: seq<Calls>) {
    forall n, x: nat :: 0 <= n < |calls| && x < nodeCount && x in calls[n].scan ==>
      x in calls[n].update && !LeftFilled(calls, n, x)
  }

  function OneAt(n: nat, k: nat): (bits: seq<nat>)
    ensures |bits| == n && ValidBits(bits)
  {
    seq(n, i => if i == k then 1 else 0)
  }

  /** While only bit 0 is scanned no other bit is ever shown in its word. */
  lemma {:induction false} OnlyBitZero(calls: seq<Calls>, k: nat, n: nat, x: nat)
    requires n <= k < |calls|
    ensures ViewAfter(calls, OneAt(|calls|, k), n, x).line[0] in {None, Some(0)}
  {
    if n == 0 {
    } else {
      OnlyBitZero(calls, k, n - 1, x);
    }
  }

  lemma UnfilledFails(units: nat, nodeCount: nat, calls: seq<Calls>, n: nat, x: nat)
    requires units > 0 && n < |calls| && x < nodeCount && (x !in calls[n].update || LeftFilled(calls, n, x))
    ensures !ScannedPasses(units, nodeCount, calls, OneAt(|calls|, n), n, x)
  {
    var bits := OneAt(|calls|, n);
    FlagMeansLeft(calls, bits, n, x);
    OnlyBitZero(calls, n, n, x);
    ScanPassesExactly(units, nodeCount, calls, bits, n, x);
    hide Scanned, ViewAfter, Passes;
  }

  lemma FilledPasses(units: nat, nodeCount: nat, calls: seq<Calls>, bits: seq<nat>, n: nat, x: nat)
    requires n < |calls| && n < |bits| && ValidBits(bits) && x < nodeCount && units > 0
    requires x in calls[n].update && !LeftFilled(calls, n, x)
    ensures ScannedPasses(units, nodeCount, calls, bits, n, x)
  {
    FlagMeansLeft(calls, bits, n, x);
    ScanPassesExactly(units, nodeCount, calls, bits, n, x);
    hide Scanned, ViewAfter, Passes;
  }

  /** The nodes the threads see raise no false alarm, whatever the bits, if and only if whatever is scanned was filled
      in the same issue and not left filled by an earlier one. */
  lemma NoFalseAlarmExactly(units: nat, nodeCount: nat, calls: seq<Calls>)
    requires units > 0
    ensures FilledWhereScanned(nodeCount, calls) <==>
              forall bits: seq<nat> :: |bits| == |calls| && ValidBits(bits) ==> NoAlarm(units, nodeCount, calls, bits)
  {
    hide ScannedPasses;
    if FilledWhereScanned(nodeCount, calls) {
      forall bits: seq<nat> | |bits| == |calls| && ValidBits(bits) ensures NoAlarm(units, nodeCount, calls, bits) {
        forall n, x: nat | 0 <= n < |calls| && x < nodeCount && x in calls[n].scan
          ensures ScannedPasses(units, nodeCount, calls, bits, n, x)
        {
          FilledPasses(units, nodeCount, calls, bits, n, x);
        }
      }
    } else {
      var n, x: nat :| 0 <= n < |calls| && x < nodeCount && x in calls[n].scan &&
                       !(x in calls[n].update && !LeftFilled(calls, n, x));
      UnfilledFails(units, nodeCount, calls, n, x);
      assert !NoAlarm(units, nodeCount, calls, OneAt(|calls|, n));
    }
  }

  /** Threads that stay on their nodes from the first call on. */
  lemma {:induction false} PinnedLeavesNothing(calls: seq<Calls>, n: nat, x: nat)
    requires n <= |calls| && forall i :: 0 <= i < |calls| ==> calls[i].update == calls[i].recover
    ensures !LeftFilled(calls, n, x)
  {
    if n == 0 {
    } else {
      PinnedLeavesNothing(calls, n - 1, x);
    }
  }

  lemma PinnedRaisesNothing(units: nat, nodeCount: nat, calls: seq<Calls>, bits: seq<nat>)
    requires units > 0 && |bits| == |calls| && ValidBits(bits)
    requires forall i :: 0 <= i < |calls| ==> calls[i].update == calls[i].scan == calls[i].recover
    ensures NoAlarm(units, nodeCount, calls, bits)
  {
    forall n: nat, x: nat | n < |calls| ensures !LeftFilled(calls, n, x) {
      PinnedLeavesNothing(calls, n, x);
    }
    NoFalseAlarmExactly(units, nodeCount, calls);
  }

  /** The first issue when only one thread is not bound yet: its update call sees node a, the later calls its own node
      b. It raises an alarm exactly if no other thread is on b. */
  lemma LateBinding(units: nat, nodeCount: nat, others: seq<int>, a: int, b: nat, bit: nat)
    requires units > 0 && bit < SCAN_BITS && b < nodeCount && a != b
    ensures var calls := [Calls(others + [a], others + [b], others + [b])];
            NoAlarm(units, nodeCount, calls, [bit]) <==> b in others
  {
    var calls := [Calls(others + [a], others + [b], others + [b])];
    hide ScannedPasses;
    assert forall x: nat :: !LeftFilled(calls, 0, x);
    if b in others {
      assert FilledWhereScanned(nodeCount, calls);
      NoFalseAlarmExactly(units, nodeCount, calls);
    } else {
      NothingShown(units, nodeCount, calls, bit, b);
      assert b in calls[0].scan;
    }
  }

  lemma NothingShown(units: nat, nodeCount: nat, calls: seq<Calls>, bit: nat, x: nat)
    requires units > 0 && bit < SCAN_BITS && |calls| == 1 && x < nodeCount && x !in calls[0].update
    ensures !ScannedPasses(units, nodeCount, calls, [bit], 0, x)
  {
    ScanPassesExactly(units, nodeCount, calls, [bit], 0, x);
    assert ViewAfter(calls, [bit], 0, x).line[bit / 64] == None;
    hide Scanned, Passes;
  }
}
