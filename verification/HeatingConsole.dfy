/** The heating commands of the console: from a command's text to the shared state and the answer. */
module HeatingConsole {
  import opened Common
  import opened Commands
  import opened Requests
  import opened Heating
  import HeatingRuns

  // What `heating.*` commands are answered with; a request without an id gets no result.
  datatype Answer =
    | NoAnswer
    | StateAnswer(id: string, snapshot: Snapshot)
    | ParamsError(id: string)

  // `handle_heating_set`, `handle_heating_get` and `handle_heating_set_auto_off_timer`. `at` is when the
  // command's critical section runs, `stamp` the clock the snapshot of the answer reads.
  method ProcessHeating(app: AppState, cmd: string, at: int, stamp: int) returns (answer: Answer)
    modifies app
    // The command's own value takes effect, and nothing else.
    ensures match Dispatch(cmd)
            case HeatingSet(_, on) => app.Current() == SetHeatingSpec(old(app.Current()), on, at) && app.enabled == on
            case HeatingSetTimer(_, minutes) =>
              app.Current() == SetTimerSpec(old(app.Current()), minutes, at) && app.timerMinutes == minutes
            case _ => app.Current() == old(app.Current())
    ensures match Dispatch(cmd)
            case HeatingSet(id, on) =>
              Answers(answer, id, app.limit, app.Current(), stamp) && (id.present ==> answer.snapshot.enabled == on)
            case HeatingSetTimer(id, minutes) =>
              && Answers(answer, id, app.limit, app.Current(), stamp)
              && (id.present ==> answer.snapshot.timerMinutes == minutes)
            case HeatingGet(id) => Answers(answer, id, app.limit, app.Current(), stamp)
            case BadParams(id) => answer == ParamsError(id.token)
            case _ => answer == NoAnswer
  {
    hide Dispatch, SnapshotSpec;
    var c := ParseCommand(cmd);
    match c {
      case HeatingSet(id, on) =>
        var _ := app.SetHeatingEnabled(on, at);
        answer := SendState(app, id, stamp);
      case HeatingSetTimer(id, minutes) =>
        app.SetAutoOffTimerMinutes(minutes, at);
        answer := SendState(app, id, stamp);
      case HeatingGet(id) =>
        answer := SendState(app, id, stamp);
      case BadParams(id) =>
        answer := ParamsError(id.token);
      case _ =>
        answer := NoAnswer;
    }
  }

  // A result goes out under the request's own id, and only if it had one.
  ghost predicate Answers(answer: Answer, id: Id, limit: nat, s: State, stamp: int) {
    if id.present then answer == StateAnswer(id.token, SnapshotSpec(limit, s, stamp)) else answer == NoAnswer
  }

  // `send_heating_state_result`
  method SendState(app: AppState, id: Id, stamp: int) returns (answer: Answer)
    ensures Answers(answer, id, app.limit, app.Current(), stamp)
    ensures id.present ==> answer.snapshot.enabled == app.enabled && answer.snapshot.timerMinutes == app.timerMinutes
  {
    var snapshot := app.GetSnapshot(stamp);
    hide SnapshotSpec;
    answer := if id.present then StateAnswer(id.token, snapshot) else NoAnswer;
  }

  // A heating request of the protocol, and what it stands for in the runs of the heating system.
  function EventOf(r: Request, at: int): Option<HeatingRuns.Event> {
    match r
    case HeatingSetRequest(on) => Some(HeatingRuns.SetHeating(on, at))
    case SetTimerRequest(minutes) => Some(HeatingRuns.SetTimer(minutes, at))
    case _ => None
  }

  // Processing a request's line does to the state exactly what its event does in a run, so everything
  // proved of runs holds of the commands as they are sent; every other request leaves the state alone.
  method ProcessRequest(app: AppState, r: Request, id: uint32, at: int, stamp: int, ghost y: HeatingRuns.Sys)
    returns (answer: Answer)
    requires Sendable(r) && y.state == app.Current()
    modifies app
    ensures var e := EventOf(r, at);
            app.Current() == if e.Some? then HeatingRuns.Step(app.limit, y, e.value).state else y.state
    ensures r.HeatingSetRequest? ==> app.enabled == r.on
    ensures r.SetTimerRequest? ==> app.timerMinutes == r.minutes
  {
    RequestRoundTrip(r, id);
    hide Dispatch, SetHeatingSpec, SetTimerSpec, SnapshotSpec, Request.Line;
    answer := ProcessHeating(app, r.Line(id), at, stamp);
  }
}
