/** The smoke task against the tracking server: create-or-get of one experiment and the logging of
    one run, by any number of tasks at once, any of which may crash anywhere. */
module Tracking {
  import opened Wrappers

  const EXPERIMENT_NAME := "m0-smoke"
  const PARAM_KEY := "stack"
  const PARAM_VALUE := "compose"
  const METRIC_KEY := "wired"
  const METRIC_VALUE := 1.0

  datatype Run = Run(experiment: nat, params: map<string, string>, metrics: map<string, real>, finished: bool)

  datatype Server = Server(experiments: map<nat, string>, runs: map<nat, Run>)

  // ---------------------------------------------------------------- what the server does

  predicate Taken(server: Server, name: string) {
    exists id | id in server.experiments :: server.experiments[id] == name
  }

  predicate Named(server: Server, id: nat, name: string) {
    id in server.experiments && server.experiments[id] == name
  }

  function WithExperiment(server: Server, id: nat, name: string): Server {
    server.(experiments := server.experiments[id := name])
  }

  function WithRun(server: Server, run: nat, record: Run): Server {
    server.(runs := server.runs[run := record])
  }

  function NewRun(experiment: nat): Run {
    Run(experiment, map[], map[], false)
  }

  function LoggedParam(run: Run): Run {
    run.(params := run.params[PARAM_KEY := PARAM_VALUE])
  }

  function LoggedMetric(run: Run): Run {
    run.(metrics := run.metrics[METRIC_KEY := METRIC_VALUE])
  }

  predicate HoldsParam(run: Run) {
    "stack" in run.params && run.params["stack"] == "compose"
  }

  predicate HoldsMetric(run: Run) {
    "wired" in run.metrics && run.metrics["wired"] == 1.0
  }

  // ---------------------------------------------------------------- one task, alone

  /** One request, as it reaches the server. */
  datatype Request =
    | CreateExperimentNamed(name: string)
    | GetExperimentByName(name: string)
    | CreateRunIn(experiment: nat)
    | LogParameterOf(run: nat)
    | LogMetricOf(run: nat)
    | FinishRun(run: nat)

  /** The server as one task sees it while nothing else runs, with the requests it was sent. */
  class TrackingServer {
    var state: Server
    var requests: seq<Request>

    constructor (state: Server)
      ensures this.state == state && requests == []
    {
      this.state := state;
      requests := [];
    }

    /** `experiments/create`: refused when the name is taken. */
    method CreateExperiment(name: string) returns (id: Option<nat>)
      modifies this
      ensures id.None? <==> Taken(old(state), name)
      ensures id.None? ==> state == old(state)
      ensures id.Some? ==> id.value !in old(state).experiments && state == WithExperiment(old(state), id.value, name)
      ensures requests == old(requests) + [CreateExperimentNamed(name)]
    {
      requests := requests + [CreateExperimentNamed(name)];
      if Taken(state, name) {
        return None;
      }
      var unused := Fresh(state.experiments.Keys);
      state := WithExperiment(state, unused, name);
      id := Some(unused);
    }

    /** `experiments/get-by-name`. */
    method GetByName(name: string) returns (id: Option<nat>)
      modifies this`requests
      ensures id.Some? ==> Named(state, id.value, name)
      ensures id.None? <==> !Taken(state, name)
      ensures requests == old(requests) + [GetExperimentByName(name)]
    {
      requests := requests + [GetExperimentByName(name)];
      if e :| e in state.experiments && state.experiments[e] == name {
        id := Some(e);
      } else {
        id := None;
      }
    }

    method CreateRun(experiment: nat) returns (run: nat)
      modifies this
      ensures run !in old(state).runs && state == WithRun(old(state), run, NewRun(experiment))
      ensures requests == old(requests) + [CreateRunIn(experiment)]
    {
      requests := requests + [CreateRunIn(experiment)];
      run := Fresh(state.runs.Keys);
      state := WithRun(state, run, NewRun(experiment));
    }

    method LogParameter(run: nat)
      requires run in state.runs
      modifies this
      ensures state == WithRun(old(state), run, LoggedParam(old(state).runs[run]))
      ensures requests == old(requests) + [LogParameterOf(run)]
    {
      requests := requests + [LogParameterOf(run)];
      state := WithRun(state, run, LoggedParam(state.runs[run]));
    }

    method LogMetric(run: nat)
      requires run in state.runs
      modifies this
      ensures state == WithRun(old(state), run, LoggedMetric(old(state).runs[run]))
      ensures requests == old(requests) + [LogMetricOf(run)]
    {
      requests := requests + [LogMetricOf(run)];
      state := WithRun(state, run, LoggedMetric(state.runs[run]));
    }

    method SetFinished(run: nat)
      requires run in state.runs
      modifies this
      ensures state == WithRun(old(state), run, old(state).runs[run].(finished := true))
      ensures requests == old(requests) + [FinishRun(run)]
    {
      requests := requests + [FinishRun(run)];
      state := WithRun(state, run, state.runs[run].(finished := true));
    }
  }

  method Fresh(used: set<nat>) returns (id: nat)
    ensures id !in used
  {
    id := 0;
    var pending := used;
    while pending != {}
      invariant forall u :: u in used && u !in pending ==> u < id
    {
      var u :| u in pending;
      if id <= u {
        id := u + 1;
      }
      pending := pending - {u};
    }
  }

  /** The requests that settle the experiment: one, or two when the name was already taken. */
  function SettlingRequests(server: Server): seq<Request> {
    [CreateExperimentNamed(EXPERIMENT_NAME)] +
    if Taken(server, EXPERIMENT_NAME) then [GetExperimentByName(EXPERIMENT_NAME)] else []
  }

  /** Create the experiment, or find the one an earlier task created. */
  method ExperimentId(server: TrackingServer) returns (id: nat)
    modifies server
    ensures Named(server.state, id, EXPERIMENT_NAME)
    ensures server.state == if Taken(old(server.state), EXPERIMENT_NAME) then old(server.state)
                            else WithExperiment(old(server.state), id, EXPERIMENT_NAME)
    ensures !Taken(old(server.state), EXPERIMENT_NAME) ==> id !in old(server.state).experiments
    ensures server.requests == old(server.requests) + SettlingRequests(old(server.state))
  {
    var created := server.CreateExperiment(EXPERIMENT_NAME);
    if created.Some? {
      return created.value;
    }
    var found := server.GetByName(EXPERIMENT_NAME);
    id := found.value;
  }

  /** One finished run with the one param and the one metric, finished by the last request. */
  method LogOneRun(server: TrackingServer) returns (run: nat)
    modifies server
    ensures run !in old(server.state).runs && run in server.state.runs
    ensures var record := server.state.runs[run];
            && Named(server.state, record.experiment, "m0-smoke") && HoldsParam(record) && HoldsMetric(record)
            && record == LoggedMetric(LoggedParam(NewRun(record.experiment))).(finished := true)
            && server.state.runs == old(server.state).runs[run := record]
            && server.state.experiments == (if Taken(old(server.state), EXPERIMENT_NAME)
                                            then old(server.state).experiments
                                            else old(server.state).experiments[record.experiment := EXPERIMENT_NAME])
            && server.requests == old(server.requests) + SettlingRequests(old(server.state))
                 + [CreateRunIn(record.experiment), LogParameterOf(run), LogMetricOf(run), FinishRun(run)]
  {
    hide Taken;
    var id := ExperimentId(server);
    run := server.CreateRun(id);
    server.LogParameter(run);
    server.LogMetric(run);
    server.SetFinished(run);
  }

  // ---------------------------------------------------------------- many tasks, interleaved

  /** How far a task has got. Each phase is reached by one request. */
  datatype Phase =
    | Idle
    | MustLookUp
    | HasExperiment(experiment: nat)
    | RunMade(experiment: nat, run: nat)
    | ParamLogged(experiment: nat, run: nat)
    | MetricLogged(experiment: nat, run: nat)
    | Returned(experiment: nat, run: nat)

  datatype Task = Task(phase: Phase, crashed: bool)

  datatype State = State(server: Server, tasks: map<nat, Task>)

  /** What may happen next. A crash covers every exception, a refused request and a reply lost after
      the server acted. Others share the server, under other experiment names. */
  datatype Action =
    | Create(task: nat, id: nat)
    | LookUp(task: nat, id: nat)
    | StartRun(task: nat, run: nat)
    | LogParam(task: nat)
    | LogMetric(task: nat)
    | Finish(task: nat)
    | Crash(task: nat)
    | OtherExperiment(id: nat, name: string)
    | OtherRun(run: nat, record: Run)

  predicate Alive(s: State, task: nat) {
    task in s.tasks && !s.tasks[task].crashed
  }

  predicate Enabled(s: State, action: Action) {
    match action
    case Create(task, id) => Alive(s, task) && s.tasks[task].phase == Idle && id !in s.server.experiments
    case LookUp(task, id) =>
      Alive(s, task) && s.tasks[task].phase == MustLookUp && Named(s.server, id, EXPERIMENT_NAME)
    case StartRun(task, run) => Alive(s, task) && s.tasks[task].phase.HasExperiment? && run !in s.server.runs
    case LogParam(task) => Alive(s, task) && s.tasks[task].phase.RunMade? && s.tasks[task].phase.run in s.server.runs
    case LogMetric(task) =>
      Alive(s, task) && s.tasks[task].phase.ParamLogged? && s.tasks[task].phase.run in s.server.runs
    case Finish(task) => Alive(s, task) && s.tasks[task].phase.MetricLogged? && s.tasks[task].phase.run in s.server.runs
    case Crash(task) => Alive(s, task)
    case OtherExperiment(id, name) => id !in s.server.experiments && !Taken(s.server, name)
    case OtherRun(run, record) =>
      run !in s.server.runs && record.experiment in s.server.experiments
      && s.server.experiments[record.experiment] != EXPERIMENT_NAME
  }

  function Moved(s: State, task: nat, phase: Phase): State
    requires task in s.tasks
  {
    s.(tasks := s.tasks[task := s.tasks[task].(phase := phase)])
  }

  function After(s: State, action: Action): State
    requires Enabled(s, action)
  {
    match action
    case Create(task, id) =>
      if Taken(s.server, EXPERIMENT_NAME) then Moved(s, task, MustLookUp)
      else Moved(s, task, HasExperiment(id)).(server := WithExperiment(s.server, id, EXPERIMENT_NAME))
    case LookUp(task, id) => Moved(s, task, HasExperiment(id))
    case StartRun(task, run) =>
      var experiment := s.tasks[task].phase.experiment;
      Moved(s, task, RunMade(experiment, run)).(server := WithRun(s.server, run, NewRun(experiment)))
    case LogParam(task) =>
      var RunMade(experiment, run) := s.tasks[task].phase;
      Moved(s, task, ParamLogged(experiment, run)).(server := WithRun(s.server, run, LoggedParam(s.server.runs[run])))
    case LogMetric(task) =>
      var ParamLogged(experiment, run) := s.tasks[task].phase;
      Moved(s, task, MetricLogged(experiment, run)).(server := WithRun(s.server, run, LoggedMetric(s.server.runs[run])))
    case Finish(task) =>
      var MetricLogged(experiment, run) := s.tasks[task].phase;
      Moved(s, task, Returned(experiment, run)).(server :=
          WithRun(s.server, run, s.server.runs[run].(finished := true)))
    case Crash(task) => s.(tasks := s.tasks[task := s.tasks[task].(crashed := true)])
    case OtherExperiment(id, name) => s.(server := WithExperiment(s.server, id, name))
    case OtherRun(run, record) => s.(server := WithRun(s.server, run, record))
  }

  // ---------------------------------------------------------------- what every state keeps

  predicate HasId(phase: Phase) {
    !phase.Idle? && !phase.MustLookUp?
  }

  predicate HasRun(phase: Phase) {
    HasId(phase) && !phase.HasExperiment?
  }

  /** What a phase says about the server. */
  predicate PhaseHolds(server: Server, phase: Phase) {
    && (phase.MustLookUp? ==> Taken(server, EXPERIMENT_NAME))
    && (HasId(phase) ==> Named(server, phase.experiment, EXPERIMENT_NAME))
    && (HasRun(phase) ==>
          && phase.run in server.runs
          && var run := server.runs[phase.run];
             && run.experiment == phase.experiment
             && (run.finished <==> phase.Returned?)
             && (!phase.RunMade? ==> HoldsParam(run))
             && (phase.MetricLogged? || phase.Returned? ==> HoldsMetric(run)))
  }

  predicate NamesAreUnique(server: Server) {
    forall a, b | a in server.experiments && b in server.experiments
      && server.experiments[a] == server.experiments[b] :: a == b
  }

  /** No two tasks write to one run. */
  predicate RunsAreOwned(tasks: map<nat, Task>) {
    forall a, b | a in tasks && b in tasks && HasRun(tasks[a].phase) && HasRun(tasks[b].phase)
      && tasks[a].phase.run == tasks[b].phase.run :: a == b
  }

  /** The runs of the experiment are finished only once they are complete. */
  predicate FinishedAreComplete(server: Server) {
    forall run | run in server.runs && server.runs[run].finished
      && Named(server, server.runs[run].experiment, EXPERIMENT_NAME) ::
      HoldsParam(server.runs[run]) && HoldsMetric(server.runs[run])
  }

  predicate ExperimentsExist(server: Server) {
    forall run | run in server.runs :: server.runs[run].experiment in server.experiments
  }

  predicate Sound(s: State) {
    && NamesAreUnique(s.server)
    && ExperimentsExist(s.server)
    && FinishedAreComplete(s.server)
    && RunsAreOwned(s.tasks)
    && forall task | task in s.tasks :: PhaseHolds(s.server, s.tasks[task].phase)
  }

  /** Before any task has done anything, over a server that may already have been used. */
  predicate Initial(s: State) {
    && NamesAreUnique(s.server)
    && ExperimentsExist(s.server)
    && FinishedAreComplete(s.server)
    && forall task | task in s.tasks :: s.tasks[task] == Task(Idle, false)
  }

  lemma StepsKeepSound(s: State, action: Action)
    requires Sound(s) && Enabled(s, action)
    ensures Sound(After(s, action))
  {
    var t := After(s, action);
    ServerStaysSound(s, action);
    forall task | task in t.tasks ensures PhaseHolds(t.server, t.tasks[task].phase) {
      PhasesStayTrue(s, action, task);
    }
    OwnershipStays(s, action);
  }

  lemma ServerStaysSound(s: State, action: Action)
    requires Sound(s) && Enabled(s, action)
    ensures NamesAreUnique(After(s, action).server) && ExperimentsExist(After(s, action).server)
    ensures FinishedAreComplete(After(s, action).server)
  {
    match action
    case Create(_, _) =>
    case OtherExperiment(_, _) =>
    case Finish(task) =>
      assert PhaseHolds(s.server, s.tasks[task].phase);
    case LogParam(task) =>
      assert PhaseHolds(s.server, s.tasks[task].phase);
    case LogMetric(task) =>
      assert PhaseHolds(s.server, s.tasks[task].phase);
    case StartRun(task, _) =>
      assert PhaseHolds(s.server, s.tasks[task].phase);
    case _ =>
  }

  lemma PhasesStayTrue(s: State, action: Action, task: nat)
    requires Sound(s) && Enabled(s, action) && task in s.tasks
    ensures PhaseHolds(After(s, action).server, After(s, action).tasks[task].phase)
  {
    hide HoldsParam, HoldsMetric, NamesAreUnique, ExperimentsExist, FinishedAreComplete;
    assert PhaseHolds(s.server, s.tasks[task].phase);
    match action
    case LogParam(other) => RunIsOthers(s, task, other); WritesHold(s.server.runs[s.tasks[other].phase.run]);
    case LogMetric(other) => RunIsOthers(s, task, other); WritesHold(s.server.runs[s.tasks[other].phase.run]);
    case Finish(other) => RunIsOthers(s, task, other); WritesHold(s.server.runs[s.tasks[other].phase.run]);
    case Create(_, id) => TakenStays(s.server, id, EXPERIMENT_NAME, EXPERIMENT_NAME);
    case OtherExperiment(id, name) => TakenStays(s.server, id, name, EXPERIMENT_NAME);
    case StartRun(_, _) =>
    case OtherRun(_, _) =>
    case LookUp(_, _) =>
    case Crash(_) =>
  }

  lemma TakenStays(server: Server, id: nat, name: string, other: string)
    requires id !in server.experiments
    ensures Taken(server, other) ==> Taken(WithExperiment(server, id, name), other)
  {
    if e :| e in server.experiments && server.experiments[e] == other {
      assert WithExperiment(server, id, name).experiments[e] == other;
    }
  }

  lemma WritesHold(run: Run)
    ensures HoldsParam(LoggedParam(run)) && (HoldsMetric(run) ==> HoldsMetric(LoggedParam(run)))
    ensures HoldsMetric(LoggedMetric(run)) && (HoldsParam(run) ==> HoldsParam(LoggedMetric(run)))
    ensures HoldsParam(run) ==> HoldsParam(run.(finished := true))
    ensures HoldsMetric(run) ==> HoldsMetric(run.(finished := true))
  {
  }

  lemma RunIsOthers(s: State, task: nat, other: nat)
    requires Sound(s) && task in s.tasks && other in s.tasks && HasRun(s.tasks[other].phase)
    ensures task == other || !HasRun(s.tasks[task].phase) || s.tasks[task].phase.run != s.tasks[other].phase.run
    ensures PhaseHolds(s.server, s.tasks[other].phase)
  {
  }

  lemma OwnershipStays(s: State, action: Action)
    requires Sound(s) && Enabled(s, action)
    ensures RunsAreOwned(After(s, action).tasks)
  {
    hide HoldsParam, HoldsMetric, NamesAreUnique, ExperimentsExist, FinishedAreComplete;
    match action
    case StartRun(task, run) =>
      forall other | other in s.tasks && HasRun(s.tasks[other].phase) ensures s.tasks[other].phase.run != run {
        assert PhaseHolds(s.server, s.tasks[other].phase);
      }
    case _ =>
  }

  // ---------------------------------------------------------------- over whole histories

  ghost predicate Next(s: State, t: State) {
    exists action :: Enabled(s, action) && t == After(s, action)
  }

  ghost predicate IsHistory(history: seq<State>) {
    history != [] && Initial(history[0]) && forall i | 0 < i < |history| :: Next(history[i - 1], history[i])
  }

  lemma {:induction false} HistoriesAreSound(history: seq<State>, i: nat)
    requires IsHistory(history) && i < |history|
    ensures Sound(history[i])
  {
    hide Sound, Enabled, After;
    if i == 0 {
      InitialIsSound(history[0]);
    } else {
      HistoriesAreSound(history, i - 1);
      assert Next(history[i - 1], history[i]);
      var action :| Enabled(history[i - 1], action) && history[i] == After(history[i - 1], action);
      StepsKeepSound(history[i - 1], action);
    }
  }

  lemma InitialIsSound(s: State)
    requires Initial(s)
    ensures Sound(s)
  {
  }

  /** At most one experiment ever has the name, and every task that got an id got that one. */
  lemma OneExperiment(history: seq<State>, i: nat)
    requires IsHistory(history) && i < |history|
    ensures forall a, b | Named(history[i].server, a, "m0-smoke") && Named(history[i].server, b, "m0-smoke") :: a == b
    ensures forall t, u | t in history[i].tasks && u in history[i].tasks
              && HasId(history[i].tasks[t].phase) && HasId(history[i].tasks[u].phase) ::
              history[i].tasks[t].phase.experiment == history[i].tasks[u].phase.experiment
  {
    HistoriesAreSound(history, i);
    var s := history[i];
    forall t | t in s.tasks && HasId(s.tasks[t].phase)
      ensures Named(s.server, s.tasks[t].phase.experiment, EXPERIMENT_NAME)
    {
      assert PhaseHolds(s.server, s.tasks[t].phase);
    }
  }

  /** An id, once a task has it, stays the experiment's id: nothing deletes or renames. */
  lemma {:induction false} ExperimentsPersist(history: seq<State>, i: nat, j: nat, id: nat, name: string)
    requires IsHistory(history) && i <= j < |history| && Named(history[i].server, id, name)
    ensures Named(history[j].server, id, name)
    decreases j
  {
    hide Enabled, After, Initial, Named;
    if i < j {
      ExperimentsPersist(history, i, j - 1, id, name);
      assert Next(history[j - 1], history[j]);
      var action :| Enabled(history[j - 1], action) && history[j] == After(history[j - 1], action);
      StepsKeepNames(history[j - 1], action, id, name);
    }
  }

  lemma StepsKeepNames(s: State, action: Action, id: nat, name: string)
    requires Enabled(s, action) && Named(s.server, id, name)
    ensures Named(After(s, action).server, id, name)
  {
  }

  /** So tasks agree across time too: whenever each of them got its id, it is the same id. */
  lemma IdsAgreeAcrossTime(history: seq<State>, i: nat, j: nat, t: nat, u: nat)
    requires IsHistory(history) && i <= j < |history|
    requires t in history[i].tasks && HasId(history[i].tasks[t].phase)
    requires u in history[j].tasks && HasId(history[j].tasks[u].phase)
    ensures history[i].tasks[t].phase.experiment == history[j].tasks[u].phase.experiment
  {
    HistoriesAreSound(history, i);
    HistoriesAreSound(history, j);
    var a, b := history[i].tasks[t].phase, history[j].tasks[u].phase;
    assert PhaseHolds(history[i].server, a) && PhaseHolds(history[j].server, b);
    ExperimentsPersist(history, i, j, a.experiment, EXPERIMENT_NAME);
  }

  /** A finished run of the experiment holds both the param and the metric, whoever wrote it. */
  lemma FinishedRunsAreComplete(history: seq<State>, i: nat, run: nat)
    requires IsHistory(history) && i < |history| && run in history[i].server.runs
    requires history[i].server.runs[run].finished
    requires Named(history[i].server, history[i].server.runs[run].experiment, "m0-smoke")
    ensures HoldsParam(history[i].server.runs[run]) && HoldsMetric(history[i].server.runs[run])
  {
    HistoriesAreSound(history, i);
  }

  lemma {:induction false} CrashedTasksStay(history: seq<State>, i: nat, j: nat, task: nat)
    requires IsHistory(history) && i <= j < |history|
    requires task in history[i].tasks && history[i].tasks[task].crashed
    ensures task in history[j].tasks && history[j].tasks[task] == history[i].tasks[task]
    decreases j
  {
    hide Enabled, After, Initial, Named;
    if i < j {
      CrashedTasksStay(history, i, j - 1, task);
      assert Next(history[j - 1], history[j]);
      var action :| Enabled(history[j - 1], action) && history[j] == After(history[j - 1], action);
      StepsKeepCrashed(history[j - 1], action, task);
    }
  }

  lemma StepsKeepCrashed(s: State, action: Action, task: nat)
    requires Enabled(s, action) && task in s.tasks && s.tasks[task].crashed
    ensures task in After(s, action).tasks && After(s, action).tasks[task] == s.tasks[task]
  {
  }

  /** A crashed task's run stays for the rest of the history as the crash left it: finished if and only if
      the server had taken the final update, whether or not the reply got back. */
  lemma CrashesLeaveUnfinished(history: seq<State>, i: nat, j: nat, task: nat)
    requires IsHistory(history) && i <= j < |history|
    requires task in history[i].tasks && history[i].tasks[task].crashed && HasRun(history[i].tasks[task].phase)
    ensures var phase := history[i].tasks[task].phase;
            && phase.run in history[j].server.runs
            && (history[j].server.runs[phase.run].finished <==> phase.Returned?)
  {
    CrashedTasksStay(history, i, j, task);
    HistoriesAreSound(history, j);
    assert PhaseHolds(history[j].server, history[j].tasks[task].phase);
  }

  /** Two tasks never return one run, and a returned run is finished and complete, and the
      experiment's. */
  lemma ReturnedRunsAreOnesOwn(history: seq<State>, i: nat, t: nat, u: nat)
    requires IsHistory(history) && i < |history| && t in history[i].tasks && u in history[i].tasks && t != u
    requires history[i].tasks[t].phase.Returned?
    ensures var phase := history[i].tasks[t].phase;
            && phase.run in history[i].server.runs
            && var run := history[i].server.runs[phase.run];
               && run.finished && HoldsParam(run) && HoldsMetric(run)
               && run.experiment == phase.experiment && Named(history[i].server, run.experiment, "m0-smoke")
    ensures HasRun(history[i].tasks[u].phase) ==> history[i].tasks[u].phase.run != history[i].tasks[t].phase.run
  {
    HistoriesAreSound(history, i);
    assert PhaseHolds(history[i].server, history[i].tasks[t].phase);
  }

  /** A task that is alive and has not returned always has a request it can make: in particular the
      look-up after a refused creation always finds the experiment. */
  lemma TasksCanMove(history: seq<State>, i: nat, task: nat) returns (action: Action)
    requires IsHistory(history) && i < |history| && Alive(history[i], task)
    requires !history[i].tasks[task].phase.Returned?
    ensures Enabled(history[i], action) && !action.Crash? && !action.OtherExperiment? && !action.OtherRun?
    ensures action.task == task
  {
    HistoriesAreSound(history, i);
    var s := history[i];
    var phase := s.tasks[task].phase;
    assert PhaseHolds(s.server, phase);
    match phase
    case Idle =>
      var id := SomeFresh(s.server.experiments.Keys);
      action := Create(task, id);
    case MustLookUp =>
      var id :| id in s.server.experiments && s.server.experiments[id] == EXPERIMENT_NAME;
      action := LookUp(task, id);
    case HasExperiment(_) =>
      var run := SomeFresh(s.server.runs.Keys);
      action := StartRun(task, run);
    case RunMade(_, _) => action := LogParam(task);
    case ParamLogged(_, _) => action := LogMetric(task);
    case MetricLogged(_, _) => action := Finish(task);
  }

  ghost predicate Steps(history: seq<State>) {
    history != [] && forall i | 0 < i < |history| :: Next(history[i - 1], history[i])
  }

  lemma Extend(history: seq<State>, action: Action)
    requires Steps(history) && Enabled(history[|history| - 1], action)
    ensures Steps(history + [After(history[|history| - 1], action)])
  {
    hide Enabled, After;
    assert Next(history[|history| - 1], After(history[|history| - 1], action));
  }

  /** What a task left alone does to the server, request by request, is what `LogOneRun` does to it:
      the protocol is the method, cut at its requests. */
  lemma AloneIsLogOneRun(s: State, task: nat, id: nat, run: nat) returns (history: seq<State>)
    requires Alive(s, task) && s.tasks[task].phase == Idle && run !in s.server.runs
    requires if Taken(s.server, EXPERIMENT_NAME) then Named(s.server, id, EXPERIMENT_NAME)
            else id !in s.server.experiments
    ensures Steps(history) && history[0] == s
    ensures var last := history[|history| - 1];
            && last.tasks == s.tasks[task := Task(Returned(id, run), false)]
            && last.server == Server(
                 if Taken(s.server, EXPERIMENT_NAME) then s.server.experiments
                     else s.server.experiments[id := EXPERIMENT_NAME],
                 s.server.runs[run := LoggedMetric(LoggedParam(NewRun(id))).(finished := true)])
  {
    var settled := SettleAlone(s, task, id);
    hide Taken, Named, Steps, Next, Enabled, After, LoggedParam, LoggedMetric;
    var begun := BeginAlone(settled, task, run);
    history := FinishAlone(begun, task);
  }

  lemma BeginAlone(history: seq<State>, task: nat, run: nat) returns (longer: seq<State>)
    requires history != [] && Steps(history)
    requires var s := history[|history| - 1];
             Alive(s, task) && s.tasks[task].phase.HasExperiment? && run !in s.server.runs
    ensures Steps(longer) && longer[0] == history[0]
    ensures var s := history[|history| - 1];
            var id := s.tasks[task].phase.experiment;
            longer[|longer| - 1] == Moved(s, task, ParamLogged(id, run)).(server :=
              WithRun(s.server, run, LoggedParam(NewRun(id))))
  {
    hide Steps, LoggedParam;
    var s := history[|history| - 1];
    var made := After(s, StartRun(task, run));
    Extend(history, StartRun(task, run));
    Extend(history + [made], LogParam(task));
    longer := history + [made] + [After(made, LogParam(task))];
  }

  lemma FinishAlone(history: seq<State>, task: nat) returns (longer: seq<State>)
    requires history != [] && Steps(history)
    requires var s := history[|history| - 1];
             Alive(s, task) && s.tasks[task].phase.ParamLogged? && s.tasks[task].phase.run in s.server.runs
    ensures Steps(longer) && longer[0] == history[0]
    ensures var s := history[|history| - 1];
            var ParamLogged(id, run) := s.tasks[task].phase;
            longer[|longer| - 1] == Moved(s, task, Returned(id, run)).(server :=
              WithRun(s.server, run, LoggedMetric(s.server.runs[run]).(finished := true)))
  {
    hide Steps, LoggedMetric;
    var s := history[|history| - 1];
    var measured := After(s, LogMetric(task));
    Extend(history, LogMetric(task));
    Extend(history + [measured], Finish(task));
    longer := history + [measured] + [After(measured, Finish(task))];
  }

  lemma SettleAlone(s: State, task: nat, id: nat) returns (history: seq<State>)
    requires Alive(s, task) && s.tasks[task].phase == Idle
    requires if Taken(s.server, EXPERIMENT_NAME) then Named(s.server, id, EXPERIMENT_NAME)
            else id !in s.server.experiments
    ensures Steps(history) && history[0] == s
    ensures history[|history| - 1] ==
            Moved(s, task, HasExperiment(id)).(server :=
              if Taken(s.server, EXPERIMENT_NAME) then s.server else WithExperiment(s.server, id, EXPERIMENT_NAME))
  {
    if Taken(s.server, EXPERIMENT_NAME) {
      var unused := SomeFresh(s.server.experiments.Keys);
      var refused := After(s, Create(task, unused));
      Extend([s], Create(task, unused));
      Extend([s] + [refused], LookUp(task, id));
      history := [s] + [refused] + [After(refused, LookUp(task, id))];
    } else {
      Extend([s], Create(task, id));
      history := [s] + [After(s, Create(task, id))];
    }
  }

  lemma {:induction false} SomeFresh(used: set<nat>) returns (id: nat)
    ensures id !in used && forall u | u in used :: u < id
  {
    if used == {} {
      id := 0;
    } else {
      var u :| u in used;
      var rest := SomeFresh(used - {u});
      id := if rest <= u then u + 1 else rest;
      forall v | v in used ensures v < id {
        assert v == u || v in used - {u};
      }
    }
  }
}
