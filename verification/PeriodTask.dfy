/**
 * The life cycle of period tasks in syssentry: commands, timer ticks, heartbeats and child exits, as atomic
 * steps. Process ids are never reused.
 */
module PeriodTask {
  import opened Numerals

  datatype Status = Waiting | Running | Failed | Exited

  /** A task's fields; times are those of the performance counter, which is positive. */
  datatype Task = Task(
    status: Status, periodEnabled: bool, loadEnabled: bool, onstart: bool, interval: real, lastExec: real,
    pid: int, preDone: bool, hasPre: bool, hasPost: bool, conflictUp: bool,
    lastHeartbeat: real, heartbeatInterval: real)

  /** What the environment decides during a start: the pre commands, the conflict check, and the child if one starts. */
  datatype StartEnv = StartEnv(preOk: bool, conflictOk: bool, child: Option<nat>)

  datatype Started = Started(task: Task, attempted: bool, spawned: bool)

  datatype Settings = Settings(
    loadEnabled: bool, onstart: bool, interval: real, heartbeatInterval: real, conflictUp: bool)

  // ----- one task -----

  predicate PreFails(t: Task, env: StartEnv) { !t.preDone && t.hasPre && !env.preOk }

  function StartTask(t: Task, at: real, env: StartEnv): Started {
    if PreFails(t, env) then Started(t.(status := Failed), false, false)
    else
      var t1 := t.(preDone := t.preDone || t.hasPre, periodEnabled := true);
      if !t.conflictUp && !env.conflictOk then Started(t1, false, false)
      else Started(Launched(t1, at, env.child), true, env.child.Some?)
  }

  /** Popen and what follows it. */
  function Launched(t: Task, at: real, child: Option<nat>): Task {
    match child
    case None => t.(status := Failed, lastExec := at)
    case Some(pid) =>
      t.(status := Running, lastExec := at, pid := pid,
         lastHeartbeat := if t.heartbeatInterval > 0.0 then at else t.lastHeartbeat)
  }

  predicate Due(t: Task, at: real) { t.lastExec == 0.0 || at >= t.interval + t.lastExec }

  predicate TickStarts(t: Task, at: real) {
    t.loadEnabled && t.periodEnabled && (t.onstart || t.lastExec != 0.0) && t.status == Waiting && Due(t, at)
  }

  function TickTask(t: Task, at: real, env: StartEnv): Started {
    if TickStarts(t, at) then StartTask(t, at, env)
    else if t.loadEnabled && t.periodEnabled && !t.onstart && t.lastExec == 0.0
    then Started(t.(status := Exited), false, false)
    else Started(t, false, false)
  }

  function OnstartTask(t: Task, at: real, env: StartEnv): Started {
    if t.loadEnabled && t.periodEnabled && t.onstart then StartTask(t, at, env) else Started(t, false, false)
  }

  function StartCommand(t: Task, at: real, env: StartEnv): Started {
    if t.loadEnabled && t.status != Running then StartTask(t, at, env) else Started(t, false, false)
  }

  /** The stop command says "success" whenever the task is loaded. */
  function StopCommand(t: Task): Task {
    if !t.loadEnabled || t.status == Failed || t.status == Exited then t
    else if t.status == Waiting then t.(status := Exited)
    else t.(periodEnabled := false, preDone := t.preDone && !t.hasPost)
  }

  /** The child of the task is gone. */
  function ChildExit(t: Task, normally: bool): Task {
    t.(status := if t.periodEnabled then Waiting else if normally then Exited else Failed)
  }

  function Beat(t: Task, at: real): Task {
    if t.status == Running && t.heartbeatInterval > 0.0 then t.(lastHeartbeat := at) else t
  }

  function HeartbeatCheck(t: Task, at: real): Task {
    if t.status == Running && t.lastHeartbeat > 0.0 && at > t.lastHeartbeat + t.heartbeatInterval
    then t.(status := Failed) else t
  }

  function Reloaded(t: Task, c: Settings): Task {
    t.(loadEnabled := c.loadEnabled, onstart := c.onstart, interval := c.interval,
       heartbeatInterval := c.heartbeatInterval, conflictUp := c.conflictUp)
  }

  // ----- the code as written -----

  class PeriodTask {
    var runtimeStatus: Status
    var periodEnabled: bool
    var loadEnabled: bool
    var onstart: bool
    var interval: real
    var lastExecTimestamp: real
    var pid: int
    var preDone: bool
    const hasPre: bool
    const hasPost: bool
    var conflictUp: bool
    var lastHeartbeat: real
    var heartbeatInterval: real

    ghost function Now(): Task
      reads this
    {
      Task(runtimeStatus, periodEnabled, loadEnabled, onstart, interval, lastExecTimestamp, pid, preDone, hasPre,
           hasPost, conflictUp, lastHeartbeat, heartbeatInterval)
    }

    constructor (hasPre: bool, hasPost: bool, c: Settings)
      ensures Now() == NewTask(hasPre, hasPost, c)
    {
      this.hasPre, this.hasPost := hasPre, hasPost;
      runtimeStatus, periodEnabled, pid, preDone := Waiting, true, -1, false;
      lastExecTimestamp, lastHeartbeat := 0.0, -1.0;
      loadEnabled, onstart, interval, heartbeatInterval, conflictUp :=
        c.loadEnabled, c.onstart, c.interval, c.heartbeatInterval, c.conflictUp;
    }

    method Pre(preOk: bool) returns (ok: bool)
      modifies this
      ensures ok == (!hasPre || preOk)
      ensures Now() == if !hasPre then old(Now()) else if preOk then old(Now()).(preDone := true)
                       else old(Now()).(status := Failed)
    {
      if !hasPre { return true; }
      if !preOk {
        runtimeStatus := Failed;
        return false;
      }
      preDone := true;
      ok := true;
    }

    method Post()
      modifies this`preDone
      ensures preDone == (old(preDone) && !hasPost)
    {
      if hasPost { preDone := false; }
    }

    method Start(at: real, env: StartEnv) returns (ok: bool)
      modifies this
      ensures Now() == StartTask(old(Now()), at, env).task && ok == StartTask(old(Now()), at, env).spawned
    {
      hide Launched;
      if !preDone {
        var preRes := Pre(env.preOk);
        if !preRes {
          Post();
          return false;
        }
      }
      if !periodEnabled {
        periodEnabled := true;
      }
      if !conflictUp {
        if !env.conflictOk {
          return false;
        }
      }
      ok := Launch(at, env.child);
    }

    /** The timestamp moves whether or not the child starts. */
    method Launch(at: real, child: Option<nat>) returns (ok: bool)
      modifies this
      ensures Now() == Launched(old(Now()), at, child) && ok == child.Some?
    {
      lastExecTimestamp := at;
      if child == None {
        runtimeStatus := Failed;
        return false;
      }
      pid := child.value;
      runtimeStatus := Running;
      if heartbeatInterval > 0.0 {
        lastHeartbeat := at;
      }
      ok := true;
    }

    method CheckPeriodTimestamp(at: real) returns (due: bool)
      ensures due == Due(Now(), at)
    {
      if lastExecTimestamp == 0.0 {
        return true;
      }
      due := at >= interval + lastExecTimestamp;
    }

    /** One round of the timer's loop over the period tasks. */
    method Handle(at: real, env: StartEnv)
      modifies this
      ensures Now() == TickTask(old(Now()), at, env).task
    {
      if !loadEnabled { return; }
      if !periodEnabled { return; }
      if !onstart && lastExecTimestamp == 0.0 {
        runtimeStatus := Exited;
        return;
      }
      if runtimeStatus == Waiting {
        var due := CheckPeriodTimestamp(at);
        if due {
          var res := Start(at, env);
          if res { runtimeStatus := Running; }
        }
      }
    }

    method OnstartHandle(at: real, env: StartEnv)
      modifies this
      ensures Now() == OnstartTask(old(Now()), at, env).task
    {
      if !loadEnabled || !periodEnabled || !onstart { return; }
      var res := Start(at, env);
      if res { runtimeStatus := Running; }
    }

    /** The stop method of the task; the stop command itself runs outside. */
    method Stop()
      modifies this
      ensures Now() == old(Now()).(periodEnabled := false, preDone := old(preDone) && !hasPost,
                                   status := if old(runtimeStatus) == Running then Running else Exited)
    {
      periodEnabled := false;
      Post();
      if runtimeStatus != Running { runtimeStatus := Exited; }
    }

    method TaskStop() returns (success: bool)
      modifies this
      ensures Now() == StopCommand(old(Now())) && success == old(loadEnabled)
    {
      if !loadEnabled { return false; }
      if runtimeStatus == Exited || runtimeStatus == Failed { return true; }
      if runtimeStatus == Waiting {
        runtimeStatus := Exited;
        return true;
      }
      Stop();
      success := true;
    }

    method TaskStart(at: real, env: StartEnv) returns (success: bool)
      modifies this
      ensures Now() == StartCommand(old(Now()), at, env).task
      ensures success == StartCommand(old(Now()), at, env).spawned
    {
      if !loadEnabled { return false; }
      if runtimeStatus == Running { return false; }
      success := Start(at, env);
    }

    method OnChildExit(normally: bool)
      modifies this`runtimeStatus
      ensures Now() == ChildExit(old(Now()), normally)
    {
      if normally {
        if periodEnabled { runtimeStatus := Waiting; } else { runtimeStatus := Exited; }
      } else {
        if periodEnabled { runtimeStatus := Waiting; } else { runtimeStatus := Failed; }
      }
    }

    method HeartbeatReceived(at: real)
      modifies this`lastHeartbeat
      ensures Now() == Beat(old(Now()), at)
    {
      if runtimeStatus != Running || heartbeatInterval <= 0.0 { return; }
      lastHeartbeat := at;
    }

    /** The process that is sent SIGTERM, if any. */
    method HbTimeoutChkInterval(at: real) returns (killed: Option<int>)
      modifies this`runtimeStatus
      ensures Now() == HeartbeatCheck(old(Now()), at)
      ensures killed == if old(runtimeStatus) == Running && runtimeStatus == Failed && pid > 0 then Some(pid) else None
    {
      killed := None;
      if runtimeStatus != Running { return; }
      if lastHeartbeat <= 0.0 { return; }
      if at > lastHeartbeat + heartbeatInterval {
        runtimeStatus := Failed;
        if pid > 0 { killed := Some(pid); }
      }
    }
  }

  /** The timer's loop over all tasks. */
  method PeriodTasksHandle(tasks: seq<PeriodTask>, at: real, envs: nat -> StartEnv)
    requires forall i, j :: 0 <= i < j < |tasks| ==> tasks[i] != tasks[j]
    modifies set t | t in tasks
    ensures forall i :: 0 <= i < |tasks| ==> tasks[i].Now() == TickTask(old(tasks[i].Now()), at, envs(i)).task
  {
    hide TickTask;
    for k := 0 to |tasks|
      invariant forall i :: 0 <= i < k ==> tasks[i].Now() == TickTask(old(tasks[i].Now()), at, envs(i)).task
      invariant forall i :: k <= i < |tasks| ==> tasks[i].Now() == old(tasks[i].Now())
    {
      tasks[k].Handle(at, envs(k));
    }
  }

  function NewTask(hasPre: bool, hasPost: bool, c: Settings): Task {
    Task(Waiting, true, c.loadEnabled, c.onstart, c.interval, 0.0, -1, false, hasPre, hasPost, c.conflictUp,
         -1.0, c.heartbeatInterval)
  }

  // ----- the system -----

  /** alive: the children that have not exited; used: every process id handed out so far. */
  datatype World = World(tasks: seq<Task>, alive: set<nat>, used: set<nat>, now: real, looping: bool)

  datatype Action =
    | Onstart(env: StartEnv)
    | Tick(env: StartEnv)
    | Start(env: StartEnv)
    | Stop
    | Heartbeat
    | CheckHeartbeat
    | Reload(settings: Settings)

  /** The start-up phase visits a task once, before it has a child; EnterLoop ends it. */
  datatype Step = Act(i: nat, action: Action, at: real) | Exit(pid: nat, normally: bool) | EnterLoop

  predicate FreshChild(w: World, env: StartEnv) { env.child.Some? ==> env.child.value > 0 && env.child.value !in w.used }

  predicate Enabled(w: World, step: Step) {
    match step
    case EnterLoop => !w.looping
    case Exit(pid, _) => pid in w.alive
    case Act(i, action, at) =>
      i < |w.tasks| && at > 0.0 && at >= w.now &&
      match action
      case Onstart(env) => !w.looping && w.tasks[i].pid == -1 && FreshChild(w, env)
      case Tick(env) => w.looping && FreshChild(w, env)
      case Start(env) => w.looping && FreshChild(w, env)
      case _ => w.looping
  }

  function Outcome(t: Task, action: Action, at: real): Started {
    match action
    case Onstart(env) => OnstartTask(t, at, env)
    case Tick(env) => TickTask(t, at, env)
    case Start(env) => StartCommand(t, at, env)
    case Stop => Started(StopCommand(t), false, false)
    case Heartbeat => Started(Beat(t, at), false, false)
    case CheckHeartbeat => Started(HeartbeatCheck(t, at), false, false)
    case Reload(c) => Started(Reloaded(t, c), false, false)
  }

  /** The task a process id belongs to, as the signal handler searches for it. */
  function TaskOfPid(tasks: seq<Task>, pid: nat): nat {
    if tasks == [] || tasks[0].pid == pid then 0 else 1 + TaskOfPid(tasks[1..], pid)
  }

  function Apply(w: World, step: Step): World
    requires Enabled(w, step)
  {
    match step
    case EnterLoop => w.(looping := true)
    case Exit(pid, normally) =>
      var i := TaskOfPid(w.tasks, pid);
      if i < |w.tasks| then w.(tasks := w.tasks[i := ChildExit(w.tasks[i], normally)], alive := w.alive - {pid})
      else w.(alive := w.alive - {pid})
    case Act(i, action, at) =>
      var r := Outcome(w.tasks[i], action, at);
      var children: set<nat> := if r.spawned then {r.task.pid as nat} else {};
      World(w.tasks[i := r.task], w.alive + children, w.used + children, at, w.looping)
  }

  /** The step starts a child for task k; it gets as far as trying to. */
  predicate Spawns(w: World, step: Step, k: nat)
    requires Enabled(w, step)
  {
    step.Act? && step.i == k && Outcome(w.tasks[k], step.action, step.at).spawned
  }

  predicate Attempts(w: World, step: Step, k: nat)
    requires Enabled(w, step)
  {
    step.Act? && step.i == k && Outcome(w.tasks[k], step.action, step.at).attempted
  }

  // ----- the invariant -----

  predicate TaskOk(w: World, t: Task) {
    && (t.pid == -1 || (t.pid > 0 && t.pid as nat in w.used && t.lastExec > 0.0))
    && (t.status == Waiting || t.status == Exited ==> t.pid !in w.alive)
    && 0.0 <= t.lastExec <= w.now
  }

  ghost predicate Inv(w: World) {
    && w.alive <= w.used
    && w.now >= 0.0
    && (forall i :: 0 <= i < |w.tasks| ==> TaskOk(w, w.tasks[i]))
    && (forall i, j :: 0 <= i < j < |w.tasks| && w.tasks[i].pid > 0 ==> w.tasks[i].pid != w.tasks[j].pid)
  }

  lemma {:induction false} PidBelongs(tasks: seq<Task>, pid: nat)
    ensures TaskOfPid(tasks, pid) <= |tasks|
    ensures TaskOfPid(tasks, pid) < |tasks| ==> tasks[TaskOfPid(tasks, pid)].pid == pid
    ensures TaskOfPid(tasks, pid) == |tasks| ==> forall i :: 0 <= i < |tasks| ==> tasks[i].pid != pid
  {
    if tasks == [] || tasks[0].pid == pid {
    } else {
      PidBelongs(tasks[1..], pid);
    }
  }

  /** What any action does to its task: it keeps its child, or starts a fresh one and is then running; it does not
      become WAITING; and its launch time is only moved to the present. */
  lemma OutcomeShape(w: World, t: Task, action: Action, at: real)
    requires at > 0.0
    requires action.Onstart? || action.Tick? || action.Start? ==> FreshChild(w, action.env)
    ensures var r := Outcome(t, action, at);
            && (r.spawned ==> r.attempted && r.task.pid > 0 && r.task.pid as nat !in w.used && r.task.status == Running)
            && (!r.spawned ==> r.task.pid == t.pid)
            && (r.task.status == Waiting ==> t.status == Waiting)
            && (r.task.status == Exited ==> t.status in {Waiting, Exited} || t.lastExec == 0.0)
            && r.task.lastExec == (if r.attempted then at else t.lastExec)
  {
  }

  lemma ActKeepsInv(w: World, k: nat, action: Action, at: real)
    requires Inv(w) && Enabled(w, Act(k, action, at))
    ensures Inv(Apply(w, Act(k, action, at))) && |Apply(w, Act(k, action, at)).tasks| == |w.tasks|
  {
    var w' := Apply(w, Act(k, action, at));
    OutcomeShape(w, w.tasks[k], action, at);
    hide Outcome;
    forall i | 0 <= i < |w'.tasks| ensures TaskOk(w', w'.tasks[i]) {
      assert TaskOk(w, w.tasks[i]);
    }
    forall i, j | 0 <= i < j < |w'.tasks| && w'.tasks[i].pid > 0 ensures w'.tasks[i].pid != w'.tasks[j].pid {
      assert TaskOk(w, w.tasks[i]) && TaskOk(w, w.tasks[j]);
    }
  }

  lemma ExitKeepsInv(w: World, pid: nat, normally: bool)
    requires Inv(w) && Enabled(w, Exit(pid, normally))
    ensures Inv(Apply(w, Exit(pid, normally))) && |Apply(w, Exit(pid, normally)).tasks| == |w.tasks|
  {
    var w' := Apply(w, Exit(pid, normally));
    PidBelongs(w.tasks, pid);
    forall i | 0 <= i < |w'.tasks| ensures TaskOk(w', w'.tasks[i]) {
      assert TaskOk(w, w.tasks[i]);
    }
  }

  lemma StepKeepsInv(w: World, step: Step)
    requires Inv(w) && Enabled(w, step)
    ensures Inv(Apply(w, step)) && |Apply(w, step).tasks| == |w.tasks|
  {
    match step {
      case EnterLoop =>
        assert forall i :: 0 <= i < |w.tasks| ==> TaskOk(w, w.tasks[i]);
      case Exit(pid, normally) => ExitKeepsInv(w, pid, normally);
      case Act(k, action, at) => ActKeepsInv(w, k, action, at);
    }
  }

  ghost predicate Run(ws: seq<World>, steps: seq<Step>) {
    && |ws| == |steps| + 1
    && Initial(ws[0])
    && forall i :: 0 <= i < |steps| ==> Enabled(ws[i], steps[i]) && ws[i + 1] == Apply(ws[i], steps[i])
  }

  ghost predicate Initial(w: World) {
    && w.alive == {} && w.used == {} && w.now == 0.0 && !w.looping
    && forall i :: 0 <= i < |w.tasks| ==> exists hasPre, hasPost, c :: w.tasks[i] == NewTask(hasPre, hasPost, c)
  }

  lemma {:induction false} RunKeepsInv(ws: seq<World>, steps: seq<Step>, i: nat)
    requires Run(ws, steps) && i < |ws|
    ensures Inv(ws[i]) && |ws[i].tasks| == |ws[0].tasks|
  {
    if i == 0 {
    } else {
      RunKeepsInv(ws, steps, i - 1);
      StepKeepsInv(ws[i - 1], steps[i - 1]);
    }
  }

  /** In every run, WAITING means the task's current child is dead. */
  lemma WaitingMeansDead(ws: seq<World>, steps: seq<Step>, i: nat, k: nat)
    requires Run(ws, steps) && i < |ws| && k < |ws[i].tasks| && ws[i].tasks[k].status == Waiting
    ensures ws[i].tasks[k].pid !in ws[i].alive
  {
    RunKeepsInv(ws, steps, i);
    assert TaskOk(ws[i], ws[i].tasks[k]);
  }

  // ----- launches are an interval apart -----

  lemma LaunchTimeGrows(w: World, step: Step, k: nat)
    requires Inv(w) && Enabled(w, step) && k < |w.tasks|
    ensures var w' := Apply(w, step);
            |w'.tasks| == |w.tasks| && w.tasks[k].lastExec <= w'.tasks[k].lastExec &&
            (Attempts(w, step, k) ==> w'.tasks[k].lastExec == step.at > 0.0)
  {
    assert TaskOk(w, w.tasks[k]);
    match step {
      case Act(i, action, at) =>
        OutcomeShape(w, w.tasks[i], action, at);
        hide Outcome;
      case Exit(pid, _) => PidBelongs(w.tasks, pid);
      case EnterLoop =>
    }
  }

  /** After an attempt the recorded time is never earlier than the attempt. */
  lemma {:induction false} AttemptRemembered(ws: seq<World>, steps: seq<Step>, a: nat, b: nat, k: nat)
    requires Run(ws, steps) && a < b < |ws| && Attempts(ws[a], steps[a], k)
    ensures k < |ws[b].tasks| && 0.0 < steps[a].at <= ws[b].tasks[k].lastExec
  {
    hide Inv, Initial, Apply;
    RunKeepsInv(ws, steps, b - 1);
    if b == a + 1 {
    } else {
      hide Attempts;
      AttemptRemembered(ws, steps, a, b - 1, k);
    }
    LaunchTimeGrows(ws[b - 1], steps[b - 1], k);
  }

  /** An automatic launch comes at least the interval then in force after the last launch attempt, whatever kind
      that was and however many were between. */
  lemma LaunchesAnIntervalApart(ws: seq<World>, steps: seq<Step>, a: nat, b: nat, k: nat)
    requires Run(ws, steps) && a < b < |steps| && k < |ws[b].tasks|
    requires Attempts(ws[a], steps[a], k)
    requires Attempts(ws[b], steps[b], k) && steps[b].action.Tick?
    ensures steps[b].at >= steps[a].at + ws[b].tasks[k].interval
  {
    AttemptRemembered(ws, steps, a, b, k);
  }

  // ----- stop -----

  /** Nothing but an explicit start can launch the task any more. */
  predicate Quiet(w: World, k: nat)
    requires k < |w.tasks|
  {
    var t := w.tasks[k];
    !t.periodEnabled || ((t.status == Exited || t.status == Failed) && t.pid !in w.alive)
  }

  predicate Explicit(step: Step, k: nat) { step.Act? && step.i == k && step.action.Start? }

  lemma QuietStays(w: World, step: Step, k: nat)
    requires Inv(w) && Enabled(w, step) && w.looping && k < |w.tasks| && Quiet(w, k) && !Explicit(step, k)
    ensures k < |Apply(w, step).tasks| && Quiet(Apply(w, step), k) && Apply(w, step).looping
    ensures !Spawns(w, step, k)
  {
    assert TaskOk(w, w.tasks[k]);
    match step {
      case Act(i, action, at) =>
        OutcomeShape(w, w.tasks[i], action, at);
        if i == k {
          QuietTask(w.tasks[k], action, at);
        }
      case Exit(pid, _) => PidBelongs(w.tasks, pid);
      case EnterLoop =>
    }
  }

  /** On one task that is disabled, or has ended. */
  lemma QuietTask(t: Task, action: Action, at: real)
    requires !action.Start? && !action.Onstart?
    requires !t.periodEnabled || t.status == Exited || t.status == Failed
    ensures var r := Outcome(t, action, at);
            && !r.spawned && r.task.pid == t.pid
            && (!t.periodEnabled ==> !r.task.periodEnabled)
            && (t.status == Exited || t.status == Failed ==> r.task.status == Exited || r.task.status == Failed)
  {
  }

  /** Once quiet, no step of the rest of the run launches the task unless a start command for it comes first. */
  lemma {:induction false} QuietUntilStart(ws: seq<World>, steps: seq<Step>, a: nat, b: nat, k: nat)
    requires Run(ws, steps) && a <= b < |ws| && k < |ws[a].tasks| && ws[a].looping && Quiet(ws[a], k)
    requires forall j :: a <= j < b ==> !Explicit(steps[j], k)
    ensures k < |ws[b].tasks| && ws[b].looping && Quiet(ws[b], k)
    ensures forall j :: a <= j < b ==> Enabled(ws[j], steps[j]) && !Spawns(ws[j], steps[j], k)
  {
    hide Apply, Quiet, Explicit, Spawns, Initial, Inv;
    if a == b {
    } else {
      QuietUntilStart(ws, steps, a, b - 1, k);
      RunKeepsInv(ws, steps, b - 1);
      RunStep(ws, steps, b - 1);
      QuietStays(ws[b - 1], steps[b - 1], k);
    }
  }

  lemma RunStep(ws: seq<World>, steps: seq<Step>, i: nat)
    requires Run(ws, steps) && i < |steps|
    ensures Enabled(ws[i], steps[i]) && ws[i + 1] == Apply(ws[i], steps[i])
  {
  }

  predicate IsStop(step: Step, k: nat) { step.Act? && step.i == k && step.action.Stop? }

  /** A stop leaves the task quiet unless it came while the task was marked FAILED with its child still alive, as it
      is after a heartbeat timeout. */
  lemma StopQuiets(w: World, step: Step, k: nat)
    requires Inv(w) && Enabled(w, step) && IsStop(step, k) && w.tasks[k].loadEnabled
    ensures Quiet(Apply(w, step), k) <==>
              !w.tasks[k].periodEnabled || w.tasks[k].status in {Running, Waiting} || w.tasks[k].pid !in w.alive
  {
    assert TaskOk(w, w.tasks[k]);
  }

  /** After a stop accepted in RUNNING or WAITING nothing launches the task before an explicit start. */
  lemma StoppedStaysStopped(ws: seq<World>, steps: seq<Step>, a: nat, b: nat, k: nat)
    requires Run(ws, steps) && a < b < |steps| && IsStop(steps[a], k)
    requires k < |ws[a].tasks| && ws[a].tasks[k].loadEnabled && ws[a].tasks[k].status in {Running, Waiting}
    requires forall j :: a < j <= b ==> !Explicit(steps[j], k)
    ensures Enabled(ws[b], steps[b]) && !Spawns(ws[b], steps[b], k)
  {
    RunKeepsInv(ws, steps, a);
    StopQuiets(ws[a], steps[a], k);
    assert ws[a + 1] == Apply(ws[a], steps[a]);
    QuietUntilStart(ws, steps, a + 1, b + 1, k);
  }

  /** In the remaining case the stop also answers "success", and at any later time the task is due the timer
      launches it again, once its child has exited. */
  lemma StopOfFailedRelaunches(w: World, k: nat, child: nat, at: real)
    requires Inv(w) && w.looping && k < |w.tasks|
    requires var t := w.tasks[k];
             t.loadEnabled && t.periodEnabled && t.status == Failed && t.pid in w.alive
    requires child > 0 && child !in w.used && at > 0.0 && at >= w.now && Due(w.tasks[k], at)
    ensures var stop, exit := Act(k, Stop, at), Exit(w.tasks[k].pid as nat, false);
            var tick := Act(k, Tick(StartEnv(true, true, Some(child))), at);
            && Enabled(w, stop)
            && Enabled(Apply(w, stop), exit)
            && Enabled(Apply(Apply(w, stop), exit), tick)
            && Spawns(Apply(Apply(w, stop), exit), tick, k)
  {
    var stop := Act(k, Stop, at);
    assert TaskOk(w, w.tasks[k]);
    assert Apply(w, stop).tasks == w.tasks;
    PidBelongs(w.tasks, w.tasks[k].pid as nat);
  }

  // ----- what a launch needs -----

  /** In every run a step starts a child for task k exactly when it is a start that the task is due for or that is asked
      for, the pre commands have succeeded, no task in conflict is up unless that is allowed, and Popen succeeds. */
  lemma LaunchExactly(w: World, step: Step, k: nat)
    requires Inv(w) && Enabled(w, step) && step.Act? && step.i == k
    ensures var t := w.tasks[k];
            Spawns(w, step, k) <==>
              exists env :: step.action in {Onstart(env), Tick(env), Start(env)}
                && (t.preDone || !t.hasPre || env.preOk) && (t.conflictUp || env.conflictOk) && env.child.Some?
                && t.loadEnabled
                && (step.action.Onstart? ==> t.periodEnabled && t.onstart)
                && (step.action.Start? ==> t.status != Running)
                && (step.action.Tick? ==>
                      && t.periodEnabled && t.status == Waiting && (t.onstart || t.lastExec > 0.0)
                      && (t.lastExec == 0.0 || step.at - t.lastExec >= t.interval))
  {
    assert TaskOk(w, w.tasks[k]);
    match step.action {
      case Onstart(env) => assert step.action == Onstart(env);
      case Tick(env) => assert step.action == Tick(env);
      case Start(env) => assert step.action == Start(env);
      case _ =>
    }
  }

  // ----- at most one living child -----

  /** The process id of the child a step starts. */
  function SpawnedPid(w: World, step: Step): int
    requires Enabled(w, step) && step.Act?
  {
    Outcome(w.tasks[step.i], step.action, step.at).task.pid
  }

  /** The children that the first n steps started for task k and that are still alive. */
  ghost function Children(ws: seq<World>, steps: seq<Step>, n: nat, k: nat): set<int>
    requires Run(ws, steps) && n < |ws|
  {
    if n == 0 then {}
    else
      var started := if Spawns(ws[n - 1], steps[n - 1], k) then {SpawnedPid(ws[n - 1], steps[n - 1])} else {};
      set pid | pid in Children(ws, steps, n - 1, k) + started && pid in ws[n].alive
  }

  /** The step starts a child while the current one is alive. */
  predicate Overlaps(w: World, step: Step, k: nat)
    requires Enabled(w, step)
  {
    Spawns(w, step, k) && w.tasks[k].pid in w.alive
  }

  /** The timer never does that. A start command does it exactly when it is accepted for a task marked FAILED whose
      child is alive, as it is after a heartbeat timeout. */
  lemma OverlapsExactly(w: World, step: Step, k: nat)
    requires Inv(w) && Enabled(w, step) && k < |w.tasks|
    ensures Overlaps(w, step, k) <==>
              && Explicit(step, k) && w.tasks[k].loadEnabled && w.tasks[k].status == Failed
              && w.tasks[k].pid in w.alive && StartTask(w.tasks[k], step.at, step.action.env).spawned
  {
    assert TaskOk(w, w.tasks[k]);
  }

  /** What a step does to the children of task k. */
  lemma ChildStep(w: World, step: Step, k: nat)
    requires Inv(w) && Enabled(w, step) && k < |w.tasks|
    ensures var w' := Apply(w, step);
            && |w'.tasks| == |w.tasks|
            && (forall pid :: pid in w'.alive && pid in w.used ==> pid in w.alive)
            && if Spawns(w, step, k) then
                 var pid := SpawnedPid(w, step);
                 w'.tasks[k].pid == pid && pid !in w.used && pid in w'.alive && w.alive <= w'.alive
               else w'.tasks[k].pid == w.tasks[k].pid
  {
    match step {
      case Act(i, action, at) =>
        OutcomeShape(w, w.tasks[i], action, at);
        hide Outcome;
      case Exit(pid, _) => PidBelongs(w.tasks, pid);
      case EnterLoop =>
    }
  }

  ghost predicate NoOverlap(ws: seq<World>, steps: seq<Step>, n: nat, k: nat)
    requires Run(ws, steps) && n < |ws|
  {
    forall j :: 0 <= j < n ==> !Overlaps(ws[j], steps[j], k)
  }

  /** The current child is among the living ones; without an overlap it is the only one. */
  lemma {:induction false} CurrentChild(ws: seq<World>, steps: seq<Step>, n: nat, k: nat)
    requires Run(ws, steps) && n < |ws| && k < |ws[0].tasks|
    ensures k < |ws[n].tasks| && Children(ws, steps, n, k) <= ws[n].alive
    ensures ws[n].tasks[k].pid in ws[n].alive ==> ws[n].tasks[k].pid in Children(ws, steps, n, k)
    ensures NoOverlap(ws, steps, n, k) ==> Children(ws, steps, n, k) <= {ws[n].tasks[k].pid}
  {
    hide Apply, Inv, Initial, Spawns, SpawnedPid;
    RunKeepsInv(ws, steps, n);
    if n == 0 {
      NothingAlive(ws[0], k);
    } else {
      CurrentChild(ws, steps, n - 1, k);
      RunKeepsInv(ws, steps, n - 1);
      RunStep(ws, steps, n - 1);
      ChildStep(ws[n - 1], steps[n - 1], k);
      KnownPids(ws[n - 1], k);
    }
  }

  lemma NothingAlive(w: World, k: nat)
    requires Initial(w) && k < |w.tasks|
    ensures w.alive == {}
  {
  }

  lemma KnownPids(w: World, k: nat)
    requires Inv(w) && k < |w.tasks|
    ensures w.alive <= w.used && (w.tasks[k].pid > 0 ==> w.tasks[k].pid in w.used)
    ensures w.tasks[k].pid == -1 || w.tasks[k].pid > 0
  {
    assert TaskOk(w, w.tasks[k]);
  }

  /** In every run, task k has at most one living child at all times if and only if no start command was accepted for
      it while it was FAILED with its child alive. */
  lemma OneLivingChildExactly(ws: seq<World>, steps: seq<Step>, n: nat, k: nat)
    requires Run(ws, steps) && n < |ws| && k < |ws[0].tasks|
    ensures (forall i :: 0 <= i <= n ==> |Children(ws, steps, i, k)| <= 1) <==> NoOverlap(ws, steps, n, k)
  {
    hide Children, Overlaps;
    if NoOverlap(ws, steps, n, k) {
      forall i | 0 <= i <= n ensures |Children(ws, steps, i, k)| <= 1 {
        CurrentChild(ws, steps, i, k);
        SubsetOfOne(Children(ws, steps, i, k), ws[i].tasks[k].pid);
      }
    } else {
      var j :| 0 <= j < n && Overlaps(ws[j], steps[j], k);
      TwoAfterOverlap(ws, steps, j, k);
    }
  }

  lemma TwoAfterOverlap(ws: seq<World>, steps: seq<Step>, j: nat, k: nat)
    requires Run(ws, steps) && j < |steps| && k < |ws[0].tasks| && Overlaps(ws[j], steps[j], k)
    ensures |Children(ws, steps, j + 1, k)| >= 2
  {
    hide Apply, Inv, Initial, SpawnedPid;
    CurrentChild(ws, steps, j, k);
    RunKeepsInv(ws, steps, j);
    RunStep(ws, steps, j);
    ChildStep(ws[j], steps[j], k);
    KnownPids(ws[j], k);
    var old', new' := ws[j].tasks[k].pid, SpawnedPid(ws[j], steps[j]);
    var children := Children(ws, steps, j + 1, k);
    assert {old', new'} <= children;
    assert |{old', new'}| == 2;
    SubsetSize({old', new'}, children);
  }

  lemma SubsetOfOne(s: set<int>, x: int)
    requires s <= {x}
    ensures |s| <= 1
  {
    SubsetSize(s, {x});
  }

  lemma {:induction false} SubsetSize<T>(s: set<T>, t: set<T>)
    requires s <= t
    ensures |s| <= |t|
    decreases |s|
  {
    if s == {} {
    } else {
      var x :| x in s;
      SubsetSize(s - {x}, t - {x});
    }
  }

  /** The worlds a list of steps leads through. */
  ghost predicate Leads(w: World, steps: seq<Step>, w': World)
    decreases |steps|
  {
    if steps == [] then w' == w
    else Enabled(w, steps[0]) && Leads(Apply(w, steps[0]), steps[1..], w')
  }

  const WATCHED := Settings(true, true, 10.0, 60.0, true)

  /** A run from the initial state in which that happens: the timer launches the task, its heartbeat stays out for
      more than a minute, a stop is answered with success, the child exits, and the timer launches it again. */
  lemma StoppedTaskRuns()
    ensures var w0 := World([NewTask(false, false, WATCHED)], {}, {}, 0.0, false);
            var go := (pid: nat) => Tick(StartEnv(true, true, Some(pid)));
            var w4 := World([Launched(w0.tasks[0], 1.0, Some(1)).(status := Failed)], {1}, {1}, 100.0, true);
            && Initial(w0)
            && Leads(w0, [EnterLoop, Act(0, go(1), 1.0), Act(0, CheckHeartbeat, 100.0), Act(0, Stop, 100.0)], w4)
            && w4.tasks[0].status == Failed && w4.tasks[0].periodEnabled && w4.tasks[0].pid in w4.alive
            && Enabled(w4, Exit(1, false))
            && Enabled(Apply(w4, Exit(1, false)), Act(0, go(2), 101.0))
            && Spawns(Apply(w4, Exit(1, false)), Act(0, go(2), 101.0), 0)
  {
    var t := NewTask(false, false, WATCHED);
    var w0 := World([t], {}, {}, 0.0, false);
    assert exists hasPre, hasPost, c :: w0.tasks[0] == NewTask(hasPre, hasPost, c);
    var launched := Launched(t, 1.0, Some(1));
    var w1, w2 := w0.(looping := true), World([launched], {1}, {1}, 1.0, true);
    var w3 := World([launched.(status := Failed)], {1}, {1}, 100.0, true);
    LeadsBy(w3, Act(0, Stop, 100.0), [], w3, w3);
    LeadsBy(w2, Act(0, CheckHeartbeat, 100.0), [Act(0, Stop, 100.0)], w3, w3);
    var launch := Act(0, Tick(StartEnv(true, true, Some(1))), 1.0);
    LeadsBy(w1, launch, [Act(0, CheckHeartbeat, 100.0), Act(0, Stop, 100.0)], w2, w3);
    LeadsBy(w0, EnterLoop, [launch, Act(0, CheckHeartbeat, 100.0), Act(0, Stop, 100.0)], w1, w3);
  }

  lemma LeadsBy(w: World, step: Step, rest: seq<Step>, next: World, last: World)
    requires Enabled(w, step) && Apply(w, step) == next && Leads(next, rest, last)
    ensures Leads(w, [step] + rest, last)
  {
    assert ([step] + rest)[1..] == rest;
  }

  /** A run from the initial state in which one task has two living children: launch, heartbeat timeout, and a start
      command. */
  lemma TwoLivingChildren()
    ensures var w0 := World([NewTask(false, false, WATCHED)], {}, {}, 0.0, false);
            var env := (pid: nat) => StartEnv(true, true, Some(pid));
            var w4 := World([Launched(w0.tasks[0], 100.0, Some(2))], {1, 2}, {1, 2}, 100.0, true);
            && Initial(w0)
            && Leads(w0, [EnterLoop, Act(0, Tick(env(1)), 1.0), Act(0, CheckHeartbeat, 100.0),
                          Act(0, Start(env(2)), 100.0)], w4)
  {
    var t := NewTask(false, false, WATCHED);
    var w0 := World([t], {}, {}, 0.0, false);
    assert exists hasPre, hasPost, c :: w0.tasks[0] == NewTask(hasPre, hasPost, c);
    var launched := Launched(t, 1.0, Some(1));
    var w1, w2 := w0.(looping := true), World([launched], {1}, {1}, 1.0, true);
    var w3 := World([launched.(status := Failed)], {1}, {1}, 100.0, true);
    var w4 := World([Launched(t, 100.0, Some(2))], {1, 2}, {1, 2}, 100.0, true);
    var launch := Act(0, Tick(StartEnv(true, true, Some(1))), 1.0);
    var start := Act(0, Start(StartEnv(true, true, Some(2))), 100.0);
    LeadsBy(w3, start, [], w4, w4);
    LeadsBy(w2, Act(0, CheckHeartbeat, 100.0), [start], w3, w4);
    LeadsBy(w1, launch, [Act(0, CheckHeartbeat, 100.0), start], w2, w4);
    LeadsBy(w0, EnterLoop, [launch, Act(0, CheckHeartbeat, 100.0), start], w1, w4);
  }
}
