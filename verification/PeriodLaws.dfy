/** Heartbeats, pre commands and idle ticks of period tasks, over whole runs. */
module PeriodLaws {
  import opened Numerals
  import opened PeriodTask

  // ----- heartbeats -----

  /** A sign of life of task k: it is launched while heartbeats are watched, or a heartbeat arrives while it runs. */
  predicate Sign(w: World, step: Step, k: nat)
    requires Enabled(w, step)
  {
    step.Act? && step.i == k && SignOf(w.tasks[k], step.action, step.at)
  }

  predicate SignOf(t: Task, action: Action, at: real) {
    t.heartbeatInterval > 0.0 && (Outcome(t, action, at).spawned || (action.Heartbeat? && t.status == Running))
  }

  lemma SignKept(t: Task, action: Action, at: real)
    ensures Outcome(t, action, at).task.lastHeartbeat == if SignOf(t, action, at) then at else t.lastHeartbeat
  {
  }

  lemma SignMoves(w: World, step: Step, k: nat)
    requires Inv(w) && Enabled(w, step) && k < |w.tasks|
    ensures k < |Apply(w, step).tasks|
    ensures Apply(w, step).tasks[k].lastHeartbeat == if Sign(w, step, k) then step.at else w.tasks[k].lastHeartbeat
    ensures w.now <= Apply(w, step).now && (Sign(w, step, k) ==> 0.0 < step.at == Apply(w, step).now)
  {
    match step {
      case Exit(pid, _) => PidBelongs(w.tasks, pid);
      case Act(i, action, at) => SignKept(w.tasks[i], action, at);
      case EnterLoop =>
    }
    hide Outcome, SignOf, TaskOfPid;
  }

  ghost predicate SignAt(ws: seq<World>, steps: seq<Step>, j: nat, k: nat)
    requires Run(ws, steps) && j < |steps|
  {
    Sign(ws[j], steps[j], k)
  }

  /** The time of the newest sign of life is the one that is kept. */
  ghost predicate NewestSign(ws: seq<World>, steps: seq<Step>, n: nat, k: nat, at: real)
    requires Run(ws, steps) && n <= |steps|
  {
    && (forall j :: 0 <= j < n && SignAt(ws, steps, j, k) ==> steps[j].at <= at)
    && (at > 0.0 <==> exists j :: 0 <= j < n && SignAt(ws, steps, j, k) && steps[j].at == at)
  }

  lemma {:induction false} LastHeartbeatIs(ws: seq<World>, steps: seq<Step>, n: nat, k: nat)
    requires Run(ws, steps) && n < |ws| && k < |ws[0].tasks|
    ensures k < |ws[n].tasks| && ws[n].tasks[k].lastHeartbeat <= ws[n].now
    ensures NewestSign(ws, steps, n, k, ws[n].tasks[k].lastHeartbeat)
  {
    hide Sign, Inv, Apply, Enabled;
    RunKeepsInv(ws, steps, n);
    if n == 0 {
      NoSignYet(ws[0], k);
    } else {
      LastHeartbeatIs(ws, steps, n - 1, k);
      RunKeepsInv(ws, steps, n - 1);
      RunStep(ws, steps, n - 1);
      SignMoves(ws[n - 1], steps[n - 1], k);
      assert Sign(ws[n - 1], steps[n - 1], k) <==> SignAt(ws, steps, n - 1, k);
    }
  }

  lemma NoSignYet(w: World, k: nat)
    requires Initial(w) && k < |w.tasks|
    ensures w.tasks[k].lastHeartbeat == -1.0 && w.now == 0.0
  {
  }

  /** In every run a check marks a running task FAILED if and only if it has given a sign of life, and every one of them
      is longer ago than the interval now in force. */
  lemma SilentExactly(ws: seq<World>, steps: seq<Step>, b: nat, k: nat)
    requires Run(ws, steps) && b < |steps| && k < |ws[0].tasks|
    requires steps[b].Act? && steps[b].i == k && steps[b].action.CheckHeartbeat?
    ensures k < |ws[b].tasks| && k < |ws[b + 1].tasks|
    ensures ws[b].tasks[k].status == Running ==>
              (ws[b + 1].tasks[k].status == Failed <==>
                 && (exists j :: 0 <= j < b && SignAt(ws, steps, j, k))
                 && forall j :: 0 <= j < b && SignAt(ws, steps, j, k) ==>
                      steps[b].at - steps[j].at > ws[b].tasks[k].heartbeatInterval)
    ensures ws[b].tasks[k].status != Running ==> ws[b + 1].tasks[k] == ws[b].tasks[k]
  {
    hide Sign, Inv;
    LastHeartbeatIs(ws, steps, b, k);
    RunStep(ws, steps, b);
    SignTimes(ws, steps, b, k);
  }

  lemma {:induction false} SignTimes(ws: seq<World>, steps: seq<Step>, n: nat, k: nat)
    requires Run(ws, steps) && n < |ws| && k < |ws[0].tasks|
    ensures forall j :: 0 <= j < n && SignAt(ws, steps, j, k) ==> steps[j].at > 0.0
  {
    hide Inv, Apply;
    if n == 0 {
    } else {
      SignTimes(ws, steps, n - 1, k);
      RunStep(ws, steps, n - 1);
    }
  }

  // ----- pre and post commands -----

  /** A start of task k that comes to its pre commands, and these succeed. */
  predicate Prepares(w: World, step: Step, k: nat)
    requires Enabled(w, step)
  {
    step.Act? && step.i == k && PreparesTask(w.tasks[k], step.action, step.at)
  }

  predicate PreparesTask(t: Task, action: Action, at: real) {
    && t.hasPre && t.loadEnabled
    && match action
       case Onstart(env) => env.preOk && t.periodEnabled && t.onstart
       case Tick(env) => env.preOk && TickStarts(t, at)
       case Start(env) => env.preOk && t.status != Running
       case _ => false
  }

  /** A stop that is passed on to the task, and so runs its post command. */
  predicate CleansUp(w: World, step: Step, k: nat)
    requires Enabled(w, step)
  {
    step.Act? && step.i == k && CleansTask(w.tasks[k], step.action)
  }

  predicate CleansTask(t: Task, action: Action) {
    action.Stop? && t.loadEnabled && t.status == Running && t.hasPost
  }

  lemma StartPre(t: Task, at: real, env: StartEnv)
    ensures StartTask(t, at, env).task.preDone <==> t.preDone || (t.hasPre && env.preOk)
  {
  }

  lemma PreKept(t: Task, action: Action, at: real)
    ensures Outcome(t, action, at).task.preDone <==>
              PreparesTask(t, action, at) || (t.preDone && !CleansTask(t, action))
  {
    match action {
      case Onstart(env) => StartPre(t, at, env);
      case Tick(env) => StartPre(t, at, env);
      case Start(env) => StartPre(t, at, env);
      case _ =>
    }
    hide StartTask, Due;
  }

  lemma PreMoves(w: World, step: Step, k: nat)
    requires Inv(w) && Enabled(w, step) && k < |w.tasks|
    ensures k < |Apply(w, step).tasks|
    ensures Apply(w, step).tasks[k].preDone <==>
              Prepares(w, step, k) || (w.tasks[k].preDone && !CleansUp(w, step, k))
  {
    match step {
      case Exit(pid, _) => PidBelongs(w.tasks, pid);
      case Act(i, action, at) => PreKept(w.tasks[i], action, at);
      case EnterLoop =>
    }
    hide Outcome, PreparesTask, CleansTask, TaskOfPid;
  }

  ghost predicate PreparedSince(ws: seq<World>, steps: seq<Step>, j: nat, n: nat, k: nat)
    requires Run(ws, steps) && j < n <= |steps|
  {
    Prepares(ws[j], steps[j], k) && forall i :: j < i < n ==> !CleansUp(ws[i], steps[i], k)
  }

  /** In every run the pre commands count as done if and only if some start went through them and no stop has cleaned up
      since: until then a further start does not repeat them. */
  lemma {:induction false} PreDoneExactly(ws: seq<World>, steps: seq<Step>, n: nat, k: nat)
    requires Run(ws, steps) && n < |ws| && k < |ws[0].tasks|
    ensures k < |ws[n].tasks|
    ensures ws[n].tasks[k].preDone <==> exists j :: 0 <= j < n && PreparedSince(ws, steps, j, n, k)
  {
    hide Inv, Apply, Prepares, CleansUp, Enabled;
    RunKeepsInv(ws, steps, n);
    if n == 0 {
      NotPrepared(ws[0], k);
    } else {
      var m := n - 1;
      PreDoneExactly(ws, steps, m, k);
      RunKeepsInv(ws, steps, m);
      RunStep(ws, steps, m);
      PreMoves(ws[m], steps[m], k);
      forall j | 0 <= j < n
        ensures PreparedSince(ws, steps, j, n, k) <==>
                  if j == m then Prepares(ws[m], steps[m], k)
                  else PreparedSince(ws, steps, j, m, k) && !CleansUp(ws[m], steps[m], k)
      {
        OneStepMore(ws, steps, j, m, k);
      }
      assert Prepares(ws[m], steps[m], k) ==> PreparedSince(ws, steps, m, n, k);
      hide PreparedSince;
    }
  }

  lemma OneStepMore(ws: seq<World>, steps: seq<Step>, j: nat, m: nat, k: nat)
    requires Run(ws, steps) && j <= m < |steps|
    ensures PreparedSince(ws, steps, j, m + 1, k) <==>
              if j == m then Prepares(ws[m], steps[m], k)
              else PreparedSince(ws, steps, j, m, k) && !CleansUp(ws[m], steps[m], k)
  {
    hide Prepares, CleansUp, Initial, Apply, Enabled;
  }

  lemma NotPrepared(w: World, k: nat)
    requires Initial(w) && k < |w.tasks|
    ensures !w.tasks[k].preDone
  {
  }

  // ----- ticks -----

  /** A tick that starts nothing leaves the task as it is, but for one that is not to run at start-up and was never
      started: that one is EXITED, and stays quiet. */
  lemma IdleTick(w: World, k: nat, env: StartEnv, at: real)
    requires Inv(w) && Enabled(w, Act(k, Tick(env), at)) && !TickStarts(w.tasks[k], at)
    ensures var t, w' := w.tasks[k], Apply(w, Act(k, Tick(env), at));
            var never := t.loadEnabled && t.periodEnabled && !t.onstart && t.lastExec == 0.0;
            && w'.tasks == w.tasks[k := t.(status := if never then Exited else t.status)]
            && w'.alive == w.alive
            && (never ==> Quiet(w', k))
  {
    assert TaskOk(w, w.tasks[k]);
  }

  /** Every task can be started at start-up. */
  lemma StartUpReachesAll(w: World, k: nat, env: StartEnv, at: real)
    requires Initial(w) && k < |w.tasks| && at > 0.0 && FreshChild(w, env)
    ensures Enabled(w, Act(k, Onstart(env), at))
  {
  }
}
