/**
 * Subscriptions of xalarm clients to kernel events, and the event switches that are on while someone needs them.
 * The state changes in atomic steps: a client connects, connections found dead are closed, sysSentry goes down.
 */
module XalarmEvents {
  import opened Numerals

  const ALARM_PANIC_EVENT := 1007
  const ALARM_KERNEL_REBOOT_EVENT := 1009
  const SUPPORTED_EVENTS: set<nat> := {1003, 1005, 1007, 1009, 1013, 1016}
  const CRITICAL_EVENTS: set<nat> := {ALARM_PANIC_EVENT, ALARM_KERNEL_REBOOT_EVENT}
  const MAX_CONNECTION_NUM := 100

  type Subscriptions = map<nat, set<nat>>

  /** A write to an event's switch, with the subscriptions at that moment. */
  datatype Write = Write(event: nat, on: bool, subs: Subscriptions)

  datatype State = State(subs: Subscriptions, enabled: set<nat>, conns: set<nat>, writes: seq<Write>)

  /** What the kernel answers for the k-th event of a request: whether its switch reads "on", and whether
      writing "on" succeeds. */
  datatype Answer = Answer(isOn: bool, opens: bool)

  type Answers = nat -> Answer

  datatype Message = Message(register: bool, ids: seq<nat>)

  /** How a new connection goes on: receiving fails, or what is received is handled (nothing, if it is no message),
      after which making the socket non-blocking can still fail. A connection that fails is closed and not listed. */
  datatype Arrival = ReceiveFails | Received(message: Option<Message>, blockingFails: bool)

  predicate Subscribed(subs: Subscriptions, event: nat) {
    exists fd :: fd in subs && event in subs[fd]
  }

  function EventsOf(subs: Subscriptions, fd: nat): set<nat> { if fd in subs then subs[fd] else {} }

  // ----- the steps as functions -----

  /** An event that is not enabled, or whose switch is found off, is opened; enabled only if that succeeds. */
  function OpenOne(s: State, event: nat, a: Answer): State {
    if event in s.enabled && event in SUPPORTED_EVENTS && a.isOn then s
    else if event !in SUPPORTED_EVENTS then s.(enabled := s.enabled - {event})
    else s.(enabled := if a.opens then s.enabled + {event} else s.enabled - {event},
            writes := s.writes + [Write(event, true, s.subs)])
  }

  function OpenAll(s: State, ids: seq<nat>, answers: Answers): State {
    if ids == [] then s
    else OpenOne(OpenAll(s, ids[..|ids| - 1], answers), ids[|ids| - 1], answers(|ids| - 1))
  }

  function IdSet(ids: seq<nat>): set<nat> { set e | e in ids }

  function Register(s: State, fd: nat, ids: seq<nat>, answers: Answers): State {
    OpenAll(s.(subs := s.subs[fd := IdSet(ids)]), ids, answers)
  }

  /** The subscription goes; the switch goes off with the last one, unless the event is critical. */
  function DropOne(s: State, fd: nat, event: nat): State {
    if event !in EventsOf(s.subs, fd) then s
    else
      var subs := s.subs[fd := s.subs[fd] - {event}];
      if Subscribed(subs, event) || event !in s.enabled || event in CRITICAL_EVENTS then s.(subs := subs)
      else s.(subs := subs, enabled := s.enabled - {event}, writes := s.writes + [Write(event, false, subs)])
  }

  function Unregister(s: State, fd: nat, ids: seq<nat>): State {
    if ids == [] then s else DropOne(Unregister(s, fd, ids[..|ids| - 1]), fd, ids[|ids| - 1])
  }

  /** A connection found dead: list(set) gives its events in some order. */
  function Close(s: State, fd: nat, order: seq<nat>): State {
    var s1 := Unregister(s, fd, order);
    s1.(conns := s1.conns - {fd})
  }

  function Handle(s: State, fd: nat, message: Option<Message>, answers: Answers): State {
    match message
    case None => s
    case Some(m) =>
      if m.ids == [] then s
      else if m.register then Register(s, fd, m.ids, answers) else Unregister(s, fd, m.ids)
  }

  /** A new connection, which the kernel gives a descriptor number that is not open; refused when there are too many. */
  function Accept(s: State, fd: nat, arrival: Arrival, answers: Answers): State {
    if |s.conns| >= MAX_CONNECTION_NUM || arrival.ReceiveFails? then s
    else
      var s1 := Handle(s, fd, arrival.message, answers);
      if arrival.blockingFails then s1 else s1.(conns := s1.conns + {fd})
  }

  // ----- the code as written -----

  class Registry {
    var fdToEvents: Subscriptions
    var enabledEvents: set<nat>
    var fdToSocket: set<nat>          // open client connections
    ghost var writes: seq<Write>

    ghost function Now(): State
      reads this
    {
      State(fdToEvents, enabledEvents, fdToSocket, writes)
    }

    constructor ()
      ensures Now() == State(map[], {}, {}, [])
    {
      fdToEvents, enabledEvents, fdToSocket, writes := map[], {}, {}, [];
    }

    /** Writing the switch; events without one are refused before any write. */
    method SetSwitch(event: nat, on: bool, succeeds: bool) returns (ok: bool)
      modifies this`writes
      ensures ok == (event in SUPPORTED_EVENTS && succeeds)
      ensures writes == old(writes) + if event in SUPPORTED_EVENTS then [Write(event, on, fdToEvents)] else []
    {
      if event !in SUPPORTED_EVENTS {
        return false;
      }
      writes := writes + [Write(event, on, fdToEvents)];
      ok := succeeds;
    }

    method RegisterClientEvents(clientFd: nat, eventIds: seq<nat>, answers: Answers)
      modifies this
      ensures Now() == Register(old(Now()), clientFd, eventIds, answers)
    {
      fdToEvents := fdToEvents[clientFd := IdSet(eventIds)];
      ghost var was := Now();
      for k := 0 to |eventIds|
        invariant Now() == OpenAll(was, eventIds[..k], answers)
      {
        ghost var before := Now();
        assert eventIds[..k + 1][..k] == eventIds[..k];
        var event, a := eventIds[k], answers(k);
        if event !in enabledEvents || !(event in SUPPORTED_EVENTS && a.isOn) {
          var ok := SetSwitch(event, true, a.opens);
          if ok {
            enabledEvents := enabledEvents + {event};
          } else if event in enabledEvents {
            enabledEvents := enabledEvents - {event};
          }
        }
        assert Now() == OpenOne(before, event, a);
      }
      assert eventIds[..|eventIds|] == eventIds;
    }

    /** disable_event; the outcome of the write is not looked at. */
    method DisableEvent(event: nat) returns (disabled: bool)
      requires event in SUPPORTED_EVENTS
      modifies this`writes
      ensures disabled == (event !in CRITICAL_EVENTS)
      ensures writes == old(writes) + if disabled then [Write(event, false, fdToEvents)] else []
    {
      if event in CRITICAL_EVENTS {
        return false;
      }
      var _ := SetSwitch(event, false, true);
      disabled := true;
    }

    method UnregisterClientEvents(clientFd: nat, eventIds: seq<nat>)
      requires enabledEvents <= SUPPORTED_EVENTS
      modifies this
      ensures Now() == Unregister(old(Now()), clientFd, eventIds) && enabledEvents <= SUPPORTED_EVENTS
    {
      if clientFd !in fdToEvents {
        UnknownDescriptor(Now(), clientFd, eventIds);
        return;
      }
      ghost var was := Now();
      for k := 0 to |eventIds|
        invariant clientFd in fdToEvents && enabledEvents <= SUPPORTED_EVENTS
        invariant Now() == Unregister(was, clientFd, eventIds[..k])
      {
        ghost var before := Now();
        assert eventIds[..k + 1][..k] == eventIds[..k];
        var event := eventIds[k];
        if event in fdToEvents[clientFd] {
          fdToEvents := fdToEvents[clientFd := fdToEvents[clientFd] - {event}];
          var stillNeeded := exists fd :: fd in fdToEvents && event in fdToEvents[fd];
          if !stillNeeded && event in enabledEvents {
            var disabled := DisableEvent(event);
            if disabled {
              enabledEvents := enabledEvents - {event};
            }
          }
        }
        assert Now() == DropOne(before, clientFd, event);
      }
      assert eventIds[..|eventIds|] == eventIds;
    }

    /** The loop that closes dead connections, shared by the three paths that find them; orders(k) is list() of the
        set of events of the k-th. */
    method CloseAll(toRemove: seq<nat>, orders: nat -> seq<nat>)
      requires enabledEvents <= SUPPORTED_EVENTS
      requires Closable(Now(), toRemove, orders)
      modifies this
      ensures Now() == ClosedAll(old(Now()), toRemove, orders)
      ensures forall k :: 0 <= k < |toRemove| ==> EventsOf(fdToEvents, toRemove[k]) == {} && toRemove[k] !in fdToSocket
    {
      hide Close, Unregister;
      ghost var was := Now();
      for k := 0 to |toRemove|
        invariant enabledEvents <= SUPPORTED_EVENTS
        invariant Now() == ClosedAll(was, toRemove[..k], orders)
      {
        NextClosed(was, toRemove, orders, k);
        UnregisterClientEvents(toRemove[k], orders(k));
        fdToSocket := fdToSocket - {toRemove[k]};
        CloseMeans(ClosedAll(was, toRemove[..k], orders), toRemove[k], orders(k));
      }
      assert toRemove[..|toRemove|] == toRemove;
      AllClosed(was, toRemove, orders);
    }

    method AcceptConnection(fd: nat, arrival: Arrival, answers: Answers) returns (listed: bool)
      requires enabledEvents <= SUPPORTED_EVENTS
      modifies this
      ensures Now() == Accept(old(Now()), fd, arrival, answers)
      ensures listed == (|old(fdToSocket)| < MAX_CONNECTION_NUM && arrival.Received? && !arrival.blockingFails)
    {
      if |fdToSocket| >= MAX_CONNECTION_NUM {
        return false;
      }
      if arrival.ReceiveFails? {
        return false;
      }
      var message := arrival.message;
      if message.Some? && message.value.ids != [] {
        if message.value.register {
          RegisterClientEvents(fd, message.value.ids, answers);
        } else {
          UnregisterClientEvents(fd, message.value.ids);
        }
      }
      if arrival.blockingFails {
        return false;
      }
      fdToSocket := fdToSocket + {fd};
      listed := true;
    }

    method ClearEnabledEventsState()
      modifies this`enabledEvents
      ensures Now() == Apply(old(Now()), ServiceDown)
    {
      enabledEvents := {};
    }
  }

  lemma {:induction false} UnknownDescriptor(s: State, fd: nat, ids: seq<nat>)
    requires fd !in s.subs
    ensures Unregister(s, fd, ids) == s
  {
    if ids == [] {
    } else {
      UnknownDescriptor(s, fd, ids[..|ids| - 1]);
    }
  }

  // ----- closing several connections -----

  function ClosedAll(s: State, toRemove: seq<nat>, orders: nat -> seq<nat>): State {
    if toRemove == [] then s
    else Close(ClosedAll(s, toRemove[..|toRemove| - 1], orders), toRemove[|toRemove| - 1], orders(|toRemove| - 1))
  }

  ghost predicate Distinct(ids: seq<nat>) { forall i, j :: 0 <= i < j < |ids| ==> ids[i] != ids[j] }

  /** Different open connections, each with all its events. */
  ghost predicate Closable(s: State, toRemove: seq<nat>, orders: nat -> seq<nat>) {
    && Distinct(toRemove)
    && forall k :: 0 <= k < |toRemove| ==> toRemove[k] in s.conns && IdSet(orders(k)) == EventsOf(s.subs, toRemove[k])
  }

  lemma NextClosed(s: State, toRemove: seq<nat>, orders: nat -> seq<nat>, k: nat)
    requires k < |toRemove|
    ensures ClosedAll(s, toRemove[..k + 1], orders) ==
            Close(ClosedAll(s, toRemove[..k], orders), toRemove[k], orders(k))
  {
    hide Close;
    assert toRemove[..k + 1][..k] == toRemove[..k];
  }

  lemma CloseMeans(s: State, fd: nat, order: seq<nat>)
    ensures Close(s, fd, order) == Unregister(s, fd, order).(conns := Unregister(s, fd, order).conns - {fd})
  {
  }

  lemma DropOneSubs(s: State, fd: nat, event: nat)
    ensures var r := DropOne(s, fd, event);
            && r.conns == s.conns
            && EventsOf(r.subs, fd) == EventsOf(s.subs, fd) - {event}
            && (forall g :: g != fd ==> EventsOf(r.subs, g) == EventsOf(s.subs, g))
  {
  }

  lemma {:induction false} UnregisterSubs(s: State, fd: nat, ids: seq<nat>)
    ensures var r := Unregister(s, fd, ids);
            && r.conns == s.conns
            && EventsOf(r.subs, fd) == EventsOf(s.subs, fd) - IdSet(ids)
            && (forall g :: g != fd ==> EventsOf(r.subs, g) == EventsOf(s.subs, g))
  {
    hide DropOne;
    if ids == [] {
      assert IdSet(ids) == {};
    } else {
      var init, last := ids[..|ids| - 1], ids[|ids| - 1];
      UnregisterSubs(s, fd, init);
      DropOneSubs(Unregister(s, fd, init), fd, last);
      assert ids == init + [last];
      assert IdSet(ids) == IdSet(init) + {last};
    }
  }

  /** After the first k are closed, those have nothing left and the others are as before. */
  lemma {:induction false} ClosedSoFar(s: State, toRemove: seq<nat>, orders: nat -> seq<nat>, k: nat)
    requires Closable(s, toRemove, orders) && k <= |toRemove|
    ensures var r := ClosedAll(s, toRemove[..k], orders);
            && (forall j :: 0 <= j < k ==> EventsOf(r.subs, toRemove[j]) == {} && toRemove[j] !in r.conns)
            && (forall j :: k <= j < |toRemove| ==>
                  EventsOf(r.subs, toRemove[j]) == EventsOf(s.subs, toRemove[j]) && toRemove[j] in r.conns)
  {
    hide EventsOf;
    if k == 0 {
    } else {
      ClosedSoFar(s, toRemove, orders, k - 1);
      NextClosed(s, toRemove, orders, k - 1);
      UnregisterSubs(ClosedAll(s, toRemove[..k - 1], orders), toRemove[k - 1], orders(k - 1));
    }
  }

  lemma AllClosed(s: State, toRemove: seq<nat>, orders: nat -> seq<nat>)
    requires Closable(s, toRemove, orders)
    ensures var r := ClosedAll(s, toRemove, orders);
            forall k :: 0 <= k < |toRemove| ==> EventsOf(r.subs, toRemove[k]) == {} && toRemove[k] !in r.conns
  {
    assert toRemove[..|toRemove|] == toRemove;
    ClosedSoFar(s, toRemove, orders, |toRemove|);
  }

  /** The loop is a run of enabled steps, one lost connection after the other. */
  lemma ClosedAllIsRun(s: State, toRemove: seq<nat>, orders: nat -> seq<nat>, k: nat)
    requires Closable(s, toRemove, orders) && k < |toRemove|
    ensures var before := ClosedAll(s, toRemove[..k], orders);
            var step := ConnectionLost(toRemove[k], orders(k));
            Enabled(before, step) && ClosedAll(s, toRemove[..k + 1], orders) == Apply(before, step)
  {
    ClosedSoFar(s, toRemove, orders, k);
    NextClosed(s, toRemove, orders, k);
  }

  // ----- the invariant -----

  /** Enabled events have a switch, and a subscriber unless they are critical. */
  ghost predicate Needed(s: State) {
    forall e :: e in s.enabled ==> e in SUPPORTED_EVENTS && (e in CRITICAL_EVENTS || Subscribed(s.subs, e))
  }

  /** "Off" was written only for events that no descriptor subscribed to at that moment, and never for critical ones. */
  ghost predicate OffJustified(s: State) {
    forall w :: w in s.writes && !w.on ==> w.event !in CRITICAL_EVENTS && !Subscribed(w.subs, w.event)
  }

  /** A descriptor that is not open has no subscriptions left. */
  ghost predicate OnlyOpen(s: State) { forall fd :: fd in s.subs && s.subs[fd] != {} ==> fd in s.conns }

  ghost predicate Inv(s: State) { Needed(s) && OffJustified(s) && OnlyOpen(s) && |s.conns| <= MAX_CONNECTION_NUM }

  lemma {:induction false} OpenAllKeeps(s: State, ids: seq<nat>, answers: Answers)
    ensures var r := OpenAll(s, ids, answers);
            && r.subs == s.subs && r.conns == s.conns
            && (forall e :: e in r.enabled ==> e in s.enabled || (e in ids && e in SUPPORTED_EVENTS))
            && (forall e :: e in s.enabled && e !in ids ==> e in r.enabled)
            && (OffJustified(s) ==> OffJustified(r))
  {
    if ids == [] {
    } else {
      OpenAllKeeps(s, ids[..|ids| - 1], answers);
      assert ids == ids[..|ids| - 1] + [ids[|ids| - 1]];
    }
  }

  lemma DropOneKeeps(s: State, fd: nat, event: nat)
    ensures OffJustified(s) ==> OffJustified(DropOne(s, fd, event))
    ensures Needed(s) ==> Needed(DropOne(s, fd, event))
  {
    var r := DropOne(s, fd, event);
    if Needed(s) {
      forall e | e in r.enabled && e !in CRITICAL_EVENTS ensures Subscribed(r.subs, e) {
        if e != event {
          var g :| g in s.subs && e in s.subs[g];
          assert e in r.subs[g];
        } else if event in EventsOf(s.subs, fd) {
          assert Subscribed(s.subs[fd := s.subs[fd] - {event}], event);
        }
      }
    }
  }

  lemma {:induction false} UnregisterKeeps(s: State, fd: nat, ids: seq<nat>)
    ensures OffJustified(s) ==> OffJustified(Unregister(s, fd, ids))
    ensures Needed(s) ==> Needed(Unregister(s, fd, ids))
  {
    hide DropOne, Needed, OffJustified;
    if ids == [] {
    } else {
      UnregisterKeeps(s, fd, ids[..|ids| - 1]);
      DropOneKeeps(Unregister(s, fd, ids[..|ids| - 1]), fd, ids[|ids| - 1]);
    }
  }

  /** Another descriptor than fd subscribes to the event. */
  ghost predicate NeededElsewhere(s: State, fd: nat, event: nat) {
    exists g :: g != fd && g in s.subs && event in s.subs[g]
  }

  /** A non-critical event that only fd subscribes to. */
  ghost predicate OnlyNeededBy(s: State, fd: nat, event: nat) {
    event in EventsOf(s.subs, fd) && event !in CRITICAL_EVENTS && !NeededElsewhere(s, fd, event)
  }

  /** Registering these ids on fd forgets no event that only fd needs. */
  ghost predicate ForgetsNothing(s: State, fd: nat, ids: seq<nat>) {
    forall e :: e in s.enabled && OnlyNeededBy(s, fd, e) ==> e in ids
  }

  /** Registering over a descriptor that still has subscriptions forgets them without closing their switches. The
      enabled events stay needed if and only if those that only this descriptor needs are registered again. */
  lemma RegisterOverStale(s: State, fd: nat, ids: seq<nat>, answers: Answers)
    requires Needed(s)
    ensures Needed(Register(s, fd, ids, answers)) <==> ForgetsNothing(s, fd, ids)
  {
    var s1 := s.(subs := s.subs[fd := IdSet(ids)]);
    var r := Register(s, fd, ids, answers);
    RegisterMeans(s, fd, ids, answers);
    OpenAllKeeps(s1, ids, answers);
    hide Register, OpenAll, OffJustified;
    forall e | e in ids ensures Subscribed(r.subs, e) {
      assert e in r.subs[fd];
    }
    if ForgetsNothing(s, fd, ids) {
      forall e | e in r.enabled && e !in CRITICAL_EVENTS && e !in ids ensures Subscribed(r.subs, e) {
        assert NeededElsewhere(s, fd, e);
        var g :| g != fd && g in s.subs && e in s.subs[g];
        assert e in r.subs[g];
      }
    } else {
      var e :| e in s.enabled && OnlyNeededBy(s, fd, e) && e !in ids;
      assert e in r.enabled && !Subscribed(r.subs, e);
    }
  }

  lemma RegisterMeans(s: State, fd: nat, ids: seq<nat>, answers: Answers)
    ensures Register(s, fd, ids, answers) == OpenAll(s.(subs := s.subs[fd := IdSet(ids)]), ids, answers)
  {
  }

  lemma RegisterKeeps(s: State, fd: nat, ids: seq<nat>, answers: Answers)
    ensures var r := Register(s, fd, ids, answers);
            && (OffJustified(s) ==> OffJustified(r))
            && r.conns == s.conns
            && EventsOf(r.subs, fd) == IdSet(ids)
            && (forall g :: g != fd ==> EventsOf(r.subs, g) == EventsOf(s.subs, g))
  {
    OpenAllKeeps(s.(subs := s.subs[fd := IdSet(ids)]), ids, answers);
    hide OpenAll;
  }

  // ----- runs -----

  datatype Step =
    | Connect(fd: nat, arrival: Arrival, answers: Answers)
    | ConnectionLost(fd: nat, order: seq<nat>)
    | ServiceDown

  /** The kernel hands out descriptor numbers that are not open; a lost connection is an open one, and its
      events are all listed. */
  ghost predicate Enabled(s: State, step: Step) {
    match step
    case Connect(fd, _, _) => fd !in s.conns
    case ConnectionLost(fd, order) => fd in s.conns && IdSet(order) == EventsOf(s.subs, fd)
    case ServiceDown => true
  }

  ghost function Apply(s: State, step: Step): State {
    match step
    case Connect(fd, arrival, answers) => Accept(s, fd, arrival, answers)
    case ConnectionLost(fd, order) => Close(s, fd, order)
    case ServiceDown => s.(enabled := {})
  }

  /** The step is an accepted connection that registers events. */
  predicate Registers(s: State, step: Step) {
    && step.Connect? && |s.conns| < MAX_CONNECTION_NUM && step.arrival.Received?
    && step.arrival.message.Some? && step.arrival.message.value.register && step.arrival.message.value.ids != []
  }

  ghost predicate Run(ss: seq<State>, steps: seq<Step>) {
    && |ss| == |steps| + 1 && ss[0] == State(map[], {}, {}, [])
    && forall i {:trigger steps[i]} :: 0 <= i < |steps| ==>
         Enabled(ss[i], steps[i]) && ss[i + 1] == Apply(ss[i], steps[i])
  }

  lemma RunStep(ss: seq<State>, steps: seq<Step>, i: nat)
    requires Run(ss, steps) && i < |steps|
    ensures Enabled(ss[i], steps[i]) && ss[i + 1] == Apply(ss[i], steps[i])
  {
    assert Enabled(ss[i], steps[i]);
  }

  lemma ConnsDoNotMatter(s: State, conns: set<nat>)
    ensures Needed(s) <==> Needed(s.(conns := conns))
    ensures OffJustified(s) ==> OffJustified(s.(conns := conns))
  {
  }

  /** A step that does not forget keeps the enabled events needed; one that does breaks it. */
  lemma StepNeeded(s: State, step: Step)
    requires Needed(s)
    ensures Needed(Apply(s, step)) <==>
              (Registers(s, step) ==> ForgetsNothing(s, step.fd, step.arrival.message.value.ids))
  {
    hide Register, Unregister, Needed, ForgetsNothing;
    match step {
      case Connect(fd, arrival, answers) =>
        if arrival.Received? && |s.conns| < MAX_CONNECTION_NUM {
          if Registers(s, step) {
            RegisterOverStale(s, fd, arrival.message.value.ids, answers);
          } else if arrival.message.Some? {
            UnregisterKeeps(s, fd, arrival.message.value.ids);
          }
          var s1 := Handle(s, fd, arrival.message, answers);
          ConnsDoNotMatter(s1, s1.conns + {fd});
        }
      case ConnectionLost(fd, order) =>
        UnregisterKeeps(s, fd, order);
        ConnsDoNotMatter(Unregister(s, fd, order), Unregister(s, fd, order).conns - {fd});
      case ServiceDown => NothingEnabled(s);
    }
  }

  lemma NothingEnabled(s: State)
    ensures Needed(s.(enabled := {})) && (OffJustified(s) ==> OffJustified(s.(enabled := {})))
  {
  }

  lemma StepOffJustified(s: State, step: Step)
    requires OffJustified(s)
    ensures OffJustified(Apply(s, step))
  {
    hide Register, Unregister, OffJustified;
    match step {
      case Connect(fd, arrival, answers) =>
        if arrival.Received? && |s.conns| < MAX_CONNECTION_NUM {
          if Registers(s, step) {
            RegisterKeeps(s, fd, arrival.message.value.ids, answers);
          } else if arrival.message.Some? {
            UnregisterKeeps(s, fd, arrival.message.value.ids);
          }
          var s1 := Handle(s, fd, arrival.message, answers);
          ConnsDoNotMatter(s1, s1.conns + {fd});
        }
      case ConnectionLost(fd, order) =>
        UnregisterKeeps(s, fd, order);
        ConnsDoNotMatter(Unregister(s, fd, order), Unregister(s, fd, order).conns - {fd});
      case ServiceDown => NothingEnabled(s);
    }
  }

  /** In every run, "off" is only ever written for an event that no descriptor subscribes to. */
  lemma {:induction false} OffOnlyWhenUnsubscribed(ss: seq<State>, steps: seq<Step>, i: nat)
    requires Run(ss, steps) && i < |ss|
    ensures OffJustified(ss[i])
  {
    hide Apply, Enabled;
    if i == 0 {
    } else {
      OffOnlyWhenUnsubscribed(ss, steps, i - 1);
      RunStep(ss, steps, i - 1);
      StepOffJustified(ss[i - 1], steps[i - 1]);
    }
  }

  /** The first n registrations of a run forget nothing. */
  ghost predicate NoneForgets(ss: seq<State>, steps: seq<Step>, n: nat) {
    |ss| > n && |steps| >= n &&
    forall i {:trigger steps[i]} :: 0 <= i < n && Registers(ss[i], steps[i]) ==>
      ForgetsNothing(ss[i], steps[i].fd, steps[i].arrival.message.value.ids)
  }

  /** In every run, all non-critical enabled events are subscribed to all the time if and only if no registration
      takes over a descriptor with an event that only it needs. */
  lemma {:induction false} NeededExactly(ss: seq<State>, steps: seq<Step>, n: nat)
    requires Run(ss, steps) && n < |ss|
    ensures (forall i :: 0 <= i <= n ==> Needed(ss[i])) <==> NoneForgets(ss, steps, n)
  {
    hide Apply, Enabled, Needed, ForgetsNothing;
    if n == 0 {
      InitialInv();
    } else {
      NeededExactly(ss, steps, n - 1);
      RunStep(ss, steps, n - 1);
      var step := steps[n - 1];
      if Needed(ss[n - 1]) { StepNeeded(ss[n - 1], step); }
    }
  }

  /** A connection that registers events and is then closed without being listed leaves them behind. */
  predicate LeavesEvents(step: Step) {
    && step.Connect? && step.arrival.Received? && step.arrival.blockingFails
    && step.arrival.message.Some? && step.arrival.message.value.register && step.arrival.message.value.ids != []
  }

  lemma StillOpen(s: State, s1: State, fd: nat)
    requires OnlyOpen(s) && s1.conns == s.conns
    requires forall g :: g != fd ==> EventsOf(s1.subs, g) == EventsOf(s.subs, g)
    ensures OnlyOpen(s1.(conns := s1.conns + {fd}))
    ensures EventsOf(s1.subs, fd) == {} ==> OnlyOpen(s1.(conns := s1.conns - {fd}))
    ensures EventsOf(s1.subs, fd) == {} ==> OnlyOpen(s1)
  {
    forall g | g in s1.subs && s1.subs[g] != {} && g != fd ensures g in s1.conns {
      assert EventsOf(s1.subs, g) == EventsOf(s.subs, g);
    }
  }

  lemma ConnectKeepsOpen(s: State, fd: nat, arrival: Arrival, answers: Answers)
    requires OnlyOpen(s) && |s.conns| <= MAX_CONNECTION_NUM && fd !in s.conns
    requires !LeavesEvents(Connect(fd, arrival, answers))
    ensures OnlyOpen(Accept(s, fd, arrival, answers))
    ensures |Accept(s, fd, arrival, answers).conns| <= MAX_CONNECTION_NUM
  {
    hide Register, Unregister;
    assert EventsOf(s.subs, fd) == {};
    if arrival.Received? && |s.conns| < MAX_CONNECTION_NUM {
      if arrival.message.Some? && arrival.message.value.ids != [] {
        if arrival.message.value.register {
          RegisterKeeps(s, fd, arrival.message.value.ids, answers);
        } else {
          UnregisterSubs(s, fd, arrival.message.value.ids);
        }
      }
      hide OnlyOpen;
      var s1 := Handle(s, fd, arrival.message, answers);
      assert forall g :: g != fd ==> EventsOf(s1.subs, g) == EventsOf(s.subs, g);
      StillOpen(s, s1, fd);
    }
  }

  lemma CloseKeepsOpen(s: State, fd: nat, order: seq<nat>)
    requires OnlyOpen(s) && |s.conns| <= MAX_CONNECTION_NUM && IdSet(order) == EventsOf(s.subs, fd)
    ensures OnlyOpen(Close(s, fd, order)) && |Close(s, fd, order).conns| <= MAX_CONNECTION_NUM
  {
    hide Unregister, OnlyOpen;
    UnregisterSubs(s, fd, order);
    StillOpen(s, Unregister(s, fd, order), fd);
    Smaller(s.conns, fd);
  }

  lemma Smaller(conns: set<nat>, fd: nat)
    ensures |conns - {fd}| <= |conns|
  {
    if fd in conns { assert |conns - {fd}| == |conns| - 1; } else { assert conns - {fd} == conns; }
  }

  /** Nothing is subscribed on a descriptor that is not open, so a registration on a new one forgets nothing. */
  lemma FreshForgetsNothing(s: State, step: Step)
    requires OnlyOpen(s) && Enabled(s, step) && Registers(s, step)
    ensures ForgetsNothing(s, step.fd, step.arrival.message.value.ids)
  {
    assert EventsOf(s.subs, step.fd) == {};
  }

  lemma StepKeepsInv(s: State, step: Step)
    requires Inv(s) && Enabled(s, step) && !LeavesEvents(step)
    ensures Inv(Apply(s, step))
  {
    if Registers(s, step) { FreshForgetsNothing(s, step); }
    hide Needed, OffJustified, OnlyOpen, ForgetsNothing;
    StepNeeded(s, step);
    StepOffJustified(s, step);
    match step {
      case Connect(fd, arrival, answers) => ConnectKeepsOpen(s, fd, arrival, answers);
      case ConnectionLost(fd, order) => CloseKeepsOpen(s, fd, order);
      case ServiceDown => OnlyEnabledChanges(s);
    }
  }

  lemma OnlyEnabledChanges(s: State)
    requires OnlyOpen(s)
    ensures OnlyOpen(s.(enabled := {}))
  {
  }

  /** In every run in which no registering connection is closed before it is listed, every non-critical enabled event
      has a subscribed open connection, and "off" was only ever written when nobody subscribed. */
  lemma {:induction false} RunsKeepInv(ss: seq<State>, steps: seq<Step>, i: nat)
    requires Run(ss, steps) && i < |ss| && forall j :: 0 <= j < i ==> !LeavesEvents(steps[j])
    ensures Inv(ss[i])
  {
    hide Apply, Enabled, Inv, LeavesEvents;
    if i == 0 {
      InitialInv();
    } else {
      RunsKeepInv(ss, steps, i - 1);
      RunStep(ss, steps, i - 1);
      StepKeepsInv(ss[i - 1], steps[i - 1]);
    }
  }

  lemma InitialInv()
    ensures Inv(State(map[], {}, {}, []))
  {
  }

  /** A run in which it goes wrong: a client registers for 1005 and its socket cannot be made non-blocking; the next
      client gets the same descriptor number, registers for 1003, and 1005 stays enabled without a subscriber. */
  lemma StaleRun(answers: Answers)
    requires forall k: nat :: k < 1 ==> answers(k).opens
    ensures var steps := [Connect(5, Received(Some(Message(true, [1005])), true), answers),
                          Connect(5, Received(Some(Message(true, [1003])), false), answers)];
            exists ss: seq<State> :: Run(ss, steps) && 1005 in ss[2].enabled && !Needed(ss[2])
  {
    var first := Connect(5, Received(Some(Message(true, [1005])), true), answers);
    var second := Connect(5, Received(Some(Message(true, [1003])), false), answers);
    var s0 := State(map[], {}, {}, []);
    FirstConnection(s0, answers);
    SecondConnection(Apply(s0, first), answers);
    hide Apply, Enabled, Needed;
    RunOfTwo(s0, Apply(s0, first), first, second);
    var ss := [s0, Apply(s0, first), Apply(Apply(s0, first), second)];
    assert Run(ss, [first, second]) && 1005 in ss[2].enabled && !Needed(ss[2]);
  }

  lemma FirstConnection(s: State, answers: Answers)
    requires s == State(map[], {}, {}, []) && answers(0).opens
    ensures var step := Connect(5, Received(Some(Message(true, [1005])), true), answers);
            Enabled(s, step) && AlmostStale(Apply(s, step))
  {
    RegisterOne(s, 5, 1005, answers);
    InitialInv();
    RegisterOverStale(s, 5, [1005], answers);
    hide Register, Needed;
  }

  /** 1005 is enabled for descriptor 5, which is not open. */
  ghost predicate AlmostStale(s: State) { Needed(s) && s.subs == map[5 := {1005}] && 1005 in s.enabled && s.conns == {} }

  lemma SecondConnection(s: State, answers: Answers)
    requires AlmostStale(s)
    ensures var step := Connect(5, Received(Some(Message(true, [1003])), false), answers);
            Enabled(s, step) && 1005 in Apply(s, step).enabled && !Needed(Apply(s, step))
  {
    assert OnlyNeededBy(s, 5, 1005);
    RegisterOverStale(s, 5, [1003], answers);
    OpenAllKeeps(s.(subs := s.subs[5 := IdSet([1003])]), [1003], answers);
    RegisterMeans(s, 5, [1003], answers);
    hide Register, OpenAll, Needed, OnlyNeededBy;
    ConnsDoNotMatter(Register(s, 5, [1003], answers), {5});
  }

  lemma RunOfTwo(s0: State, s1: State, first: Step, second: Step)
    requires s0 == State(map[], {}, {}, []) && Enabled(s0, first) && s1 == Apply(s0, first) && Enabled(s1, second)
    ensures Run([s0, s1, Apply(s1, second)], [first, second])
  {
    hide Apply, Enabled;
  }

  lemma RegisterOne(s: State, fd: nat, event: nat, answers: Answers)
    requires event in SUPPORTED_EVENTS && answers(0).opens
    ensures var r := Register(s, fd, [event], answers);
            r.subs == s.subs[fd := {event}] && event in r.enabled && r.conns == s.conns
  {
    var none: seq<nat> := [];
    assert [event][..0] == none && IdSet([event]) == {event};
    OpenAllKeeps(s.(subs := s.subs[fd := {event}]), [event], answers);
  }

  // ----- what registering and losing a connection do to one event -----

  /** After a registration an event is enabled if and only if, at its last occurrence in the list, its switch could be
      opened, or was found on while the event was enabled; before a single occurrence that is as it was. */
  lemma {:induction false} OpenedExactly(s: State, ids: seq<nat>, answers: Answers, k: nat)
    requires k < |ids| && forall j :: k < j < |ids| ==> ids[j] != ids[k]
    ensures ids[k] in OpenAll(s, ids, answers).enabled <==>
              ids[k] in SUPPORTED_EVENTS &&
              (answers(k).opens || (answers(k).isOn && ids[k] in OpenAll(s, ids[..k], answers).enabled))
    ensures ids[k] !in ids[..k] ==> (ids[k] in OpenAll(s, ids[..k], answers).enabled <==> ids[k] in s.enabled)
  {
    var n := |ids| - 1;
    if k == n {
      if ids[k] !in ids[..k] { OpenAllKeeps(s, ids[..k], answers); }
    } else {
      OpenedExactly(s, ids[..n], answers, k);
      assert ids[..n][..k] == ids[..k];
    }
  }

  lemma RegisterOutcome(s: State, fd: nat, ids: seq<nat>, answers: Answers, k: nat)
    requires k < |ids| && forall j :: k < j < |ids| ==> ids[j] != ids[k]
    ensures ids[k] in Register(s, fd, ids, answers).enabled <==>
              ids[k] in SUPPORTED_EVENTS &&
              (answers(k).opens || (answers(k).isOn && ids[k] in Register(s, fd, ids[..k], answers).enabled))
    ensures ids[k] !in ids[..k] ==> (ids[k] in Register(s, fd, ids[..k], answers).enabled <==> ids[k] in s.enabled)
  {
    hide OpenAll;
    OpenedExactly(s.(subs := s.subs[fd := IdSet(ids)]), ids, answers, k);
    EnabledOnly(s.(subs := s.subs[fd := IdSet(ids)]), s.(subs := s.subs[fd := IdSet(ids[..k])]), ids[..k], answers);
  }

  /** What is enabled does not depend on the subscriptions. */
  lemma {:induction false} EnabledOnly(s: State, t: State, ids: seq<nat>, answers: Answers)
    requires s.enabled == t.enabled
    ensures OpenAll(s, ids, answers).enabled == OpenAll(t, ids, answers).enabled
  {
    if ids == [] {
    } else {
      EnabledOnly(s, t, ids[..|ids| - 1], answers);
    }
  }

  lemma DropOneOutcome(s: State, fd: nat, event: nat, e: nat)
    ensures e in DropOne(s, fd, event).enabled <==>
              e in s.enabled && !(e == event && OnlyNeededBy(s, fd, e))
    ensures NeededElsewhere(DropOne(s, fd, event), fd, e) <==> NeededElsewhere(s, fd, e)
    ensures e in EventsOf(DropOne(s, fd, event).subs, fd) <==> e in EventsOf(s.subs, fd) && e != event
  {
    var r := DropOne(s, fd, event);
    assert forall g :: g != fd ==> (g in r.subs <==> g in s.subs) && (g in s.subs ==> r.subs[g] == s.subs[g]);
    if event in EventsOf(s.subs, fd) {
      var subs := s.subs[fd := s.subs[fd] - {event}];
      if NeededElsewhere(s, fd, event) {
        var g :| g != fd && g in s.subs && event in s.subs[g];
        assert event in subs[g];
      }
    }
  }

  /** Unregistering disables exactly the dropped, non-critical events nobody else needs. */
  lemma {:induction false} UnregisterOutcome(s: State, fd: nat, ids: seq<nat>, e: nat)
    ensures e in Unregister(s, fd, ids).enabled <==>
              e in s.enabled && !(e in ids && OnlyNeededBy(s, fd, e))
    ensures NeededElsewhere(Unregister(s, fd, ids), fd, e) <==> NeededElsewhere(s, fd, e)
    ensures e in EventsOf(Unregister(s, fd, ids).subs, fd) <==> e in EventsOf(s.subs, fd) && e !in ids
  {
    hide DropOne, NeededElsewhere, EventsOf;
    if ids == [] {
    } else {
      var init, last := ids[..|ids| - 1], ids[|ids| - 1];
      UnregisterOutcome(s, fd, init, e);
      DropOneOutcome(Unregister(s, fd, init), fd, last, e);
      assert ids == init + [last];
    }
  }

  // ----- limits -----

  lemma {:induction false} UnregisterKeepsConns(s: State, fd: nat, ids: seq<nat>)
    ensures Unregister(s, fd, ids).conns == s.conns
  {
    if ids == [] {
    } else {
      UnregisterKeepsConns(s, fd, ids[..|ids| - 1]);
    }
  }

  lemma StepConns(s: State, step: Step)
    requires |s.conns| <= 100
    ensures |Apply(s, step).conns| <= 100
  {
    hide Unregister, OpenAll;
    match step {
      case Connect(fd, arrival, answers) =>
        if arrival.Received? && arrival.message.Some? {
          var ids := arrival.message.value.ids;
          UnregisterKeepsConns(s, fd, ids);
          OpenAllKeeps(s.(subs := s.subs[fd := IdSet(ids)]), ids, answers);
        }
      case ConnectionLost(fd, order) => UnregisterKeepsConns(s, fd, order);
      case ServiceDown =>
    }
  }

  /** In every run there are at most a hundred connections, and the switches of the panic and the reboot event, 1007 and
      1009, are never written "off". */
  lemma {:induction false} LimitsKept(ss: seq<State>, steps: seq<Step>, i: nat)
    requires Run(ss, steps) && i < |ss|
    ensures |ss[i].conns| <= 100
    ensures forall w :: w in ss[i].writes && !w.on ==> w.event != 1007 && w.event != 1009
  {
    OffOnlyWhenUnsubscribed(ss, steps, i);
    if i == 0 {
    } else {
      hide Apply, Enabled;
      LimitsKept(ss, steps, i - 1);
      RunStep(ss, steps, i - 1);
      StepConns(ss[i - 1], steps[i - 1]);
    }
  }
}
