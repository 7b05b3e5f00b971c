/**
 Whole runs of the heating system: commands, received CAN messages and the control task, interleaved
 one critical section at a time.
 */
module HeatingRuns {
  import opened Common
  import opened BitField
  import opened Heating

  // `at` is when the critical section runs. Where the firmware reads the clock before taking the
  // lock, `stamp` is what it read. `Control` runs the control task up to its next section or frame.
  datatype Event =
    | SetHeating(on: bool, at: int)
    | SetTimer(minutes: uint32, at: int)
    | Receive(extended: bool, id: nat, data: seq<byte>, stamp: int, at: int)
    | Control(stamp: int, at: int)

  // One iteration of the control task: the stamp of its auto-off check, and when heating had last been
  // switched from off to on as its snapshot was taken.
  datatype Turn = Turn(applied: int, onAt: Option<int>)

  datatype Pc =
    | AtApply
    | AtSnapshot(applied: int)
    | AtTake(turn: Turn)
    | AtSend(turn: Turn, session: bool)

  // A CAN request the control task attempts.
  datatype Attempt = SessionRequest | HeatRequest(turn: Turn)

  // The shared state, the control task, and what an observer of the run has seen: the attempts, the
  // last off-to-on transition, the negative responses received, and how many of those arrived while one
  // was still waiting.
  datatype Sys = Sys(state: State, pc: Pc, attempts: seq<Attempt>, lastOn: Option<int>, negatives: nat, merged: nat)

  const START := Sys(INITIAL, AtApply, [], None, 0, 0)

  predicate Wanted(snapshot: Snapshot) {
    snapshot.enabled && snapshot.signals.charge.valid
    && snapshot.signals.charge.reading == ChargeTemperatureReading(UNDER_OPTIMAL)
  }

  // A negative response to a diagnostic request.
  predicate NegativeResponse(e: Event) {
    e.Receive? && e.extended && Rejects(e.id, e.data)
  }

  function Step(limit: nat, y: Sys, e: Event): Sys {
    match e
    case SetHeating(on, at) =>
      var s := SetHeatingSpec(y.state, on, at);
      y.(state := s, lastOn := if !y.state.enabled && s.enabled then Some(at) else y.lastOn)
    case SetTimer(minutes, at) => y.(state := SetTimerSpec(y.state, minutes, at))
    case Receive(extended, id, data, stamp, _) =>
      var negative := NegativeResponse(e);
      y.(state := ReceiveSpec(y.state, extended, id, data, stamp),
         negatives := y.negatives + if negative then 1 else 0,
         merged := y.merged + if negative && y.state.sessionError then 1 else 0)
    case Control(stamp, _) => ControlStep(limit, y, stamp)
  }

  function ControlStep(limit: nat, y: Sys, stamp: int): Sys {
    match y.pc
    case AtApply =>
      y.(state := ApplyAutoOffSpec(limit, y.state, stamp).0, pc := AtSnapshot(stamp))
    case AtSnapshot(applied) =>
      y.(pc := if Wanted(SnapshotSpec(limit, y.state, stamp)) then AtTake(Turn(applied, y.lastOn)) else AtApply)
    case AtTake(turn) =>
      y.(state := y.state.(sessionError := false), pc := AtSend(turn, y.state.sessionError))
    case AtSend(turn, session) =>
      y.(pc := AtApply, attempts := y.attempts + [if session then SessionRequest else HeatRequest(turn)])
  }

  function Run(limit: nat, es: seq<Event>): Sys {
    if es == [] then START else Step(limit, Run(limit, es[..|es| - 1]), es[|es| - 1])
  }

  // Sections run in time order, the clock has started, and a stamp is never from the future.
  ghost predicate Timed(es: seq<Event>) {
    && (forall i, j :: 0 <= i < j < |es| ==> es[i].at <= es[j].at)
    && (forall i :: 0 <= i < |es| ==> es[i].at > 0)
    && (forall i :: 0 <= i < |es| && (es[i].Receive? || es[i].Control?) ==> 0 < es[i].stamp <= es[i].at)
  }

  function Clock(es: seq<Event>): int {
    if es == [] then 0 else es[|es| - 1].at
  }

  function Sessions(attempts: seq<Attempt>): nat {
    if attempts == [] then 0
    else Sessions(attempts[..|attempts| - 1]) + if attempts[|attempts| - 1].SessionRequest? then 1 else 0
  }

  /* ---- What the commands ask for ---- */

  // The timer the last timer command set; 0 is no timer.
  function LastTimer(es: seq<Event>): uint32 {
    if es == [] then 0
    else if es[|es| - 1].SetTimer? then es[|es| - 1].minutes
    else LastTimer(es[..|es| - 1])
  }

  // While heating is on, the user's deadline is the timer then set, counted from the off-to-on
  // transition or from the latest timer command after it.
  function AskedDeadline(limit: nat, es: seq<Event>): Option<int> {
    if es == [] || !Run(limit, es).state.enabled then None
    else
      var before, e := es[..|es| - 1], es[|es| - 1];
      if !Run(limit, before).state.enabled || e.SetTimer? then CountedFrom(LastTimer(es), e.at)
      else AskedDeadline(limit, before)
  }

  function CountedFrom(minutes: uint32, at: int): Option<int> {
    if minutes > 0 then Some(at + minutes * 60_000_000) else None
  }

  /* ---- The invariant ---- */

  ghost predicate TurnOk(limit: nat, turn: Turn) {
    limit > 0 ==> turn.onAt.Some? && turn.applied < turn.onAt.value + MinutesToUs(limit)
  }

  ghost predicate DeadlinesInv(y: Sys, asked: Option<int>, clock: int) {
    var s := y.state;
    && (s.enabled ==> s.since > 0 && y.lastOn == Some(s.since) && s.since <= clock)
    && (s.enabled ==> if asked.Some? then s.userDeadline == asked.value > 0 else s.userDeadline == 0)
    && (!s.enabled ==> s.since == 0 && s.userDeadline == 0 && asked.None?)
  }

  ghost predicate TurnsInv(limit: nat, y: Sys, clock: int) {
    && (y.pc.AtSnapshot? ==> y.pc.applied <= clock
                             && (limit > 0 && y.state.enabled ==> y.pc.applied < y.state.since + MinutesToUs(limit)))
    && (y.pc.AtTake? || y.pc.AtSend? ==> TurnOk(limit, y.pc.turn))
    && (forall i :: 0 <= i < |y.attempts| && y.attempts[i].HeatRequest? ==> TurnOk(limit, y.attempts[i].turn))
  }

  // Every negative response is accounted for exactly once.
  ghost predicate Conserved(y: Sys) {
    y.negatives == Sessions(y.attempts) + (if y.pc.AtSend? && y.pc.session then 1 else 0)
                   + (if y.state.sessionError then 1 else 0) + y.merged
  }

  lemma DeadlinesStep(limit: nat, y: Sys, e: Event, asked: Option<int>, clock: int)
    requires DeadlinesInv(y, asked, clock) && e.at > 0 && clock <= e.at
    ensures var y' := Step(limit, y, e);
            var asked' := if !y'.state.enabled then None
                          else if !y.state.enabled || e.SetTimer? then CountedFrom(y'.state.timerMinutes, e.at)
                          else asked;
            DeadlinesInv(y', asked', e.at)
  {
    hide Interpret, Wanted, SnapshotSpec;
  }

  lemma TurnsStep(limit: nat, y: Sys, e: Event, asked: Option<int>, clock: int)
    requires DeadlinesInv(y, asked, clock) && TurnsInv(limit, y, clock) && e.at > 0 && clock <= e.at
    requires e.Control? ==> 0 < e.stamp <= e.at
    ensures TurnsInv(limit, Step(limit, y, e), e.at)
  {
    hide Interpret;
    if limit > 0 {
      assert MinutesToUs(limit) > 0;
    }
    hide MinutesToUs;
  }

  lemma {:induction false} TimerFollows(limit: nat, es: seq<Event>)
    ensures Run(limit, es).state.timerMinutes == LastTimer(es)
  {
    if es != [] {
      TimerFollows(limit, es[..|es| - 1]);
      hide Interpret, Wanted, SnapshotSpec, EffectiveDeadline;
    }
  }

  lemma ConservedStep(limit: nat, y: Sys, e: Event)
    requires Conserved(y)
    ensures Conserved(Step(limit, y, e))
  {
    hide Interpret, Wanted, SnapshotSpec, ApplyAutoOffSpec, SetHeatingSpec, SetTimerSpec;
    var y' := Step(limit, y, e);
    if e.Control? && y.pc.AtSend? {
      assert y'.attempts[..|y'.attempts| - 1] == y.attempts;
    }
    if e.Receive? {
      InterpretExactly(e.extended, e.id, e.data, Soc);
    }
    SpecsKeepError(limit, y.state, e);
  }

  lemma SpecsKeepError(limit: nat, s: State, e: Event)
    ensures e.SetHeating? ==> SetHeatingSpec(s, e.on, e.at).sessionError == s.sessionError
    ensures e.SetTimer? ==> SetTimerSpec(s, e.minutes, e.at).sessionError == s.sessionError
    ensures e.Control? ==> ApplyAutoOffSpec(limit, s, e.stamp).0.sessionError == s.sessionError
  {
  }

  lemma {:induction false} RunKeepsInv(limit: nat, es: seq<Event>)
    requires Timed(es)
    ensures var y := Run(limit, es);
            && DeadlinesInv(y, AskedDeadline(limit, es), Clock(es)) && TurnsInv(limit, y, Clock(es)) && Conserved(y)
  {
    if es != [] {
      var before, e := es[..|es| - 1], es[|es| - 1];
      assert Timed(before) && Clock(before) <= e.at;
      RunKeepsInv(limit, before);
      TimerFollows(limit, es);
      hide Step, DeadlinesInv, TurnsInv, Conserved, CountedFrom, LastTimer;
      var asked := AskedDeadline(limit, before);
      DeadlinesStep(limit, Run(limit, before), e, asked, Clock(before));
      TurnsStep(limit, Run(limit, before), e, asked, Clock(before));
      ConservedStep(limit, Run(limit, before), e);
    }
  }

  /* ---- Safety auto-off ---- */

  // With the safety limit on, no iteration whose auto-off check is stamped `limit` minutes or more
  // after the last off-to-on transition sends a heat request, whatever commands come in between.
  lemma {:induction false} SafetyAutoOff(limit: nat, es: seq<Event>)
    requires Timed(es) && limit > 0
    ensures forall a :: a in Run(limit, es).attempts && a.HeatRequest? ==>
                          a.turn.onAt.Some? && a.turn.applied < a.turn.onAt.value + limit * 60_000_000
  {
    RunKeepsInv(limit, es);
  }

  // The auto-off check turns heating off exactly when its stamp has reached the safety deadline counted
  // from the last off-to-on transition, or the deadline the user's commands ask for; the reason names
  // the earlier one, and the user's timer when they coincide.
  lemma {:induction false} AutoOffExactly(limit: nat, es: seq<Event>, stamp: int)
    requires Timed(es)
    ensures var y, asked := Run(limit, es), AskedDeadline(limit, es);
            var (s, reason) := ApplyAutoOffSpec(limit, y.state, stamp);
            var safety := if y.lastOn.Some? then y.lastOn.value + limit * 60_000_000 else 0;
            && (reason != NotOff <==> y.state.enabled && ((limit > 0 && stamp >= safety)
                                                          || (asked.Some? && stamp >= asked.value)))
            && (reason == Timer ==> asked.Some? && stamp >= asked.value && (limit > 0 ==> asked.value <= safety))
            && (reason == Safety ==> limit > 0 && stamp >= safety && (asked.Some? ==> safety < asked.value))
            && s.enabled == (y.state.enabled && reason == NotOff)
  {
    RunKeepsInv(limit, es);
    hide AskedDeadline, Run;
  }

  // When heating last went from off to on.
  function LastOn(limit: nat, es: seq<Event>): Option<int> {
    if es == [] then None
    else
      var before, e := es[..|es| - 1], es[|es| - 1];
      if Run(limit, es).state.enabled && !Run(limit, before).state.enabled then Some(e.at) else LastOn(limit, before)
  }

  // The last command decides whether heating is on, until an auto-off check finds a deadline reached.
  predicate SwitchedOn(limit: nat, es: seq<Event>) {
    if es == [] then false
    else
      var before, e := es[..|es| - 1], es[|es| - 1];
      if e.SetHeating? then e.on
      else SwitchedOn(limit, before) && !(e.Control? && Run(limit, before).pc.AtApply? && Due(limit, before, e.stamp))
  }

  // The safety deadline or the one the commands ask for has been reached.
  predicate Due(limit: nat, es: seq<Event>, stamp: int) {
    var on, asked := LastOn(limit, es), AskedDeadline(limit, es);
    || (limit > 0 && on.Some? && stamp >= on.value + limit * 60_000_000)
    || (asked.Some? && stamp >= asked.value)
  }

  // In every run heating is on exactly when the history says so, and the last off-to-on transition and
  // the timer setting are those of the history.
  lemma {:induction false} SwitchFollowsHistory(limit: nat, es: seq<Event>)
    requires Timed(es)
    ensures var y := Run(limit, es);
            && (y.state.enabled <==> SwitchedOn(limit, es)) && y.lastOn == LastOn(limit, es)
            && y.state.timerMinutes == LastTimer(es)
  {
    TimerFollows(limit, es);
    if es != [] {
      var before, e := es[..|es| - 1], es[|es| - 1];
      assert Timed(before);
      SwitchFollowsHistory(limit, before);
      RunKeepsInv(limit, before);
      if e.Control? {
        AutoOffExactly(limit, before, e.stamp);
      }
      assert Run(limit, es) == Step(limit, Run(limit, before), e);
      hide Run, AskedDeadline, TurnsInv, Conserved;
      SwitchStep(limit, Run(limit, before), e);
    }
  }

  lemma SwitchStep(limit: nat, y: Sys, e: Event)
    ensures var z := Step(limit, y, e);
            && z.state.enabled == (if e.SetHeating? then e.on
                                   else if e.Control? && y.pc.AtApply?
                                   then ApplyAutoOffSpec(limit, y.state, e.stamp).0.enabled
                                   else y.state.enabled)
            && z.lastOn == if z.state.enabled && !y.state.enabled then Some(e.at) else y.lastOn
  {
    hide Interpret, Wanted, SnapshotSpec, EffectiveDeadline;
  }

  // A snapshot shows the switch and the timer of the history.
  lemma {:induction false} SnapshotShowsSettings(limit: nat, es: seq<Event>, now: int)
    requires Timed(es)
    ensures var shown := SnapshotSpec(limit, Run(limit, es).state, now);
            && (shown.enabled <==> SwitchedOn(limit, es))
            && shown.timerMinutes == LastTimer(es) && (shown.timerEnabled <==> LastTimer(es) > 0)
  {
    SwitchFollowsHistory(limit, es);
    hide Run, SwitchedOn, LastTimer;
  }

  // While heating stays on, nothing moves the safety deadline: not repeated enables, not the timer.
  lemma {:induction false} SafetyBoundNeverMoves(limit: nat, es: seq<Event>, k: nat)
    requires k <= |es| && forall i :: k <= i <= |es| ==> Run(limit, es[..i]).state.enabled
    ensures var y, y' := Run(limit, es[..k]), Run(limit, es);
            y'.lastOn == y.lastOn && SafetyDeadline(limit, y'.state) == SafetyDeadline(limit, y.state)
  {
    if k == |es| {
      assert es[..k] == es;
    } else {
      var n := |es| - 1;
      var before := es[..n];
      assert Run(limit, es) == Step(limit, Run(limit, before), es[n]);
      assert es[..|es|] == es;
      assert before[..k] == es[..k];
      hide Run, Step, SafetyDeadline;
      forall i | k <= i <= n ensures Run(limit, before[..i]).state.enabled {
        assert before[..i] == es[..i];
      }
      SafetyBoundNeverMoves(limit, before, k);
      SafetyBoundStays(limit, Run(limit, before), es[n]);
    }
  }

  lemma SafetyBoundStays(limit: nat, y: Sys, e: Event)
    requires y.state.enabled && Step(limit, y, e).state.enabled
    ensures var y' := Step(limit, y, e);
            y'.lastOn == y.lastOn && SafetyDeadline(limit, y'.state) == SafetyDeadline(limit, y.state)
  {
    hide Interpret, Wanted, SnapshotSpec;
  }

  /* ---- Diagnostic-session recovery ---- */

  // Sessions attempted, plus one if a negative response is waiting, never exceed the negative responses.
  // When the control task is about to decide on a heat request, each of them has had its session
  // request or arrived while an earlier one was waiting for it, and since the latest of them a session
  // has been requested.
  lemma {:induction false} SessionRecovery(limit: nat, es: seq<Event>)
    requires Timed(es)
    ensures var y := Run(limit, es);
            && Sessions(y.attempts) + (if y.state.sessionError then 1 else 0) <= y.negatives
            && (y.pc.AtTake? && !y.state.sessionError ==>
                  && Sessions(y.attempts) + y.merged == y.negatives
                  && forall k :: 0 <= k < |es| && NegativeResponse(es[k]) ==>
                       Sessions(y.attempts) > Sessions(Run(limit, es[..k]).attempts))
  {
    RunKeepsInv(limit, es);
    var y := Run(limit, es);
    if y.pc.AtTake? && !y.state.sessionError {
      forall k | 0 <= k < |es| && NegativeResponse(es[k])
        ensures Sessions(y.attempts) > Sessions(Run(limit, es[..k]).attempts)
      {
        ResponseIsOwed(limit, es, k);
      }
    }
  }

  // A heat request made after a negative response comes after a session request made after it, unless
  // the control task had already decided on the heat request when the response came.
  lemma {:induction false} HeatFollowsSession(limit: nat, es: seq<Event>, k: nat, e: Event)
    requires Timed(es) && k < |es| && NegativeResponse(es[k])
    ensures var start, y, z := Run(limit, es[..k]), Run(limit, es), Run(limit, es + [e]);
            |z.attempts| > |y.attempts| && z.attempts[|y.attempts|].HeatRequest? ==>
              (Sessions(y.attempts) > Sessions(start.attempts)
               <==> !(start.pc.AtSend? && forall i :: k < i < |es| ==> !es[i].Control?))
  {
    assert (es + [e])[..|es|] == es;
    HeatIsSettled(limit, es, k);
    hide Run, Timed, Sessions;
    AttemptIsMade(limit, Run(limit, es), e);
  }

  // Between taking the error flag and acting on it, whatever else runs, nothing is attempted; then the
  // flag taken decides the attempt.
  lemma {:induction false} ConsumedErrorIsAnswered(limit: nat, es: seq<Event>, take: Event, more: seq<Event>,
                                                   send: Event)
    requires Run(limit, es).pc.AtTake? && take.Control? && send.Control?
    requires forall e :: e in more ==> !e.Control?
    ensures var y, taken := Run(limit, es), Run(limit, es + [take]);
            var held := Run(limit, es + [take] + more);
            && !taken.state.sessionError && held.attempts == y.attempts
            && Run(limit, es + [take] + more + [send]).attempts
               == y.attempts + [if y.state.sessionError then SessionRequest else HeatRequest(y.pc.turn)]
  {
    hide Interpret, Wanted, SnapshotSpec, SetHeatingSpec, SetTimerSpec;
    assert (es + [take])[..|es|] == es;
    ControlWaits(limit, es + [take], more);
    assert (es + [take] + more + [send])[..|es| + 1 + |more|] == es + [take] + more;
  }

  // Only its own steps move the control task.
  lemma {:induction false} ControlWaits(limit: nat, es: seq<Event>, more: seq<Event>)
    requires forall e :: e in more ==> !e.Control?
    ensures Run(limit, es + more).pc == Run(limit, es).pc && Run(limit, es + more).attempts == Run(limit, es).attempts
  {
    if more == [] {
      assert es + more == es;
    } else {
      var n := |more| - 1;
      ControlWaits(limit, es, more[..n]);
      assert (es + more)[..|es| + n] == es + more[..n] && (es + more)[|es| + n] == more[n];
      assert more[n] in more;
      hide Step;
      OnlyControlMoves(limit, Run(limit, es + more[..n]), more[n]);
    }
  }

  lemma OnlyControlMoves(limit: nat, y: Sys, e: Event)
    requires !e.Control?
    ensures Step(limit, y, e).pc == y.pc && Step(limit, y, e).attempts == y.attempts
  {
    hide SetHeatingSpec, SetTimerSpec, ReceiveSpec, Interpret;
  }

  // Requests owed and requests made never go down.
  lemma {:induction false} OwedNeverDrops(limit: nat, es: seq<Event>, k: nat)
    requires k <= |es|
    ensures var y, z := Run(limit, es[..k]), Run(limit, es);
            y.negatives - y.merged <= z.negatives - z.merged && Sessions(y.attempts) <= Sessions(z.attempts)
  {
    if k == |es| {
      assert es[..k] == es;
    } else {
      var before := es[..|es| - 1];
      assert before[..k] == es[..k];
      OwedNeverDrops(limit, before, k);
      hide Run;
      OwedStep(limit, Run(limit, before), es[|es| - 1]);
    }
  }

  lemma OwedStep(limit: nat, y: Sys, e: Event)
    ensures var z := Step(limit, y, e);
            y.negatives - y.merged <= z.negatives - z.merged && Sessions(y.attempts) <= Sessions(z.attempts)
  {
    hide Interpret, Wanted, SnapshotSpec, SetHeatingSpec, SetTimerSpec, ReceiveSpec, ApplyAutoOffSpec;
    var z := Step(limit, y, e);
    if e.Control? && y.pc.AtSend? {
      assert z.attempts[..|z.attempts| - 1] == y.attempts;
    }
  }

  // A negative response adds to the requests owed unless one already waiting covers it.
  lemma {:induction false} ResponseIsOwed(limit: nat, es: seq<Event>, k: nat)
    requires Timed(es) && k < |es| && NegativeResponse(es[k])
    ensures var start, y := Run(limit, es[..k]), Run(limit, es);
            y.negatives - y.merged > Sessions(start.attempts)
  {
    assert Timed(es[..k]);
    RunKeepsInv(limit, es[..k]);
    var after := es[..k + 1];
    assert after[..k] == es[..k] && after[k] == es[k];
    OwedNeverDrops(limit, es, k + 1);
    assert Run(limit, after) == Step(limit, Run(limit, es[..k]), es[k]);
    hide Interpret, Run, DeadlinesInv, TurnsInv, Sessions;
  }

  // Whoever is about to send a heat request has either seen to the response, or decided before it came.
  lemma {:induction false} HeatIsSettled(limit: nat, es: seq<Event>, k: nat)
    requires Timed(es) && k < |es| && NegativeResponse(es[k])
    ensures var start, y := Run(limit, es[..k]), Run(limit, es);
            y.pc.AtSend? && !y.pc.session ==>
              (Sessions(y.attempts) > Sessions(start.attempts)
               <==> !(start.pc.AtSend? && forall i :: k < i < |es| ==> !es[i].Control?))
  {
    var start, y := Run(limit, es[..k]), Run(limit, es);
    if forall i :: k < i < |es| ==> !es[i].Control? {
      assert forall e :: e in es[k..] ==> !e.Control?;
      assert es == es[..k] + es[k..];
      ControlWaits(limit, es[..k], es[k..]);
    } else if y.pc.AtSend? && !y.pc.session {
      var i :| k < i < |es| && es[i].Control?;
      HeatIsAnswered(limit, es, k, i);
    }
  }

  lemma {:induction false} HeatIsAnswered(limit: nat, es: seq<Event>, k: nat, i: nat)
    requires Timed(es) && k < i < |es| && NegativeResponse(es[k]) && es[i].Control?
    requires Run(limit, es).pc.AtSend? && !Run(limit, es).pc.session
    ensures Sessions(Run(limit, es).attempts) > Sessions(Run(limit, es[..k]).attempts)
  {
    var n := |es| - 1;
    var before := es[..n];
    assert Timed(before) && before[..k] == es[..k] && es[k] == before[k];
    assert Run(limit, es) == Step(limit, Run(limit, before), es[n]);
    hide Run, Step, Sessions, Timed, NegativeResponse;
    HeatIsDecided(limit, Run(limit, before), es[n]);
    if es[n].Control? {
      SessionRecovery(limit, before);
    } else {
      HeatIsAnswered(limit, before, k, i);
    }
  }

  // A heat request is decided on where no error was pending.
  lemma HeatIsDecided(limit: nat, y: Sys, e: Event)
    ensures var z := Step(limit, y, e);
            z.pc.AtSend? && !z.pc.session ==>
              && z.attempts == y.attempts
              && if e.Control? then y.pc.AtTake? && !y.state.sessionError else z.pc == y.pc
  {
    hide Interpret, Wanted, SnapshotSpec, SetHeatingSpec, SetTimerSpec, ReceiveSpec, ApplyAutoOffSpec;
  }

  lemma AttemptIsMade(limit: nat, y: Sys, e: Event)
    ensures var z := Step(limit, y, e);
            |z.attempts| > |y.attempts| && z.attempts[|y.attempts|].HeatRequest? ==> y.pc.AtSend? && !y.pc.session
  {
    hide Interpret, Wanted, SnapshotSpec, SetHeatingSpec, SetTimerSpec, ReceiveSpec, ApplyAutoOffSpec;
  }

  // One pass of the control loop with nothing else running in between.
  function Iterate(limit: nat, y: Sys, applyStamp: int, snapshotStamp: int): Sys {
    var z := ControlStep(limit, ControlStep(limit, y, applyStamp), snapshotStamp);
    if z.pc.AtTake? then ControlStep(limit, ControlStep(limit, z, snapshotStamp), snapshotStamp) else z
  }

  // The body of the control loop: what it attempts is what the machine's next steps attempt.
  method ControlIteration(app: AppState, applyStamp: int, snapshotStamp: int, ghost y: Sys)
    returns (session: bool, heat: bool, reason: Reason)
    requires y.pc == AtApply && y.state == app.Current()
    modifies app
    ensures var z := Iterate(app.limit, y, applyStamp, snapshotStamp);
            && app.Current() == z.state && z.pc == AtApply
            && reason == ApplyAutoOffSpec(app.limit, y.state, applyStamp).1
            && !(session && heat)
            && (session ==> z.attempts == y.attempts + [SessionRequest])
            && (heat ==> z.attempts == y.attempts + [HeatRequest(Turn(applyStamp, y.lastOn))])
            && (!session && !heat ==> z.attempts == y.attempts)
  {
    session, heat := false, false;
    reason := app.ApplyAutoOff(applyStamp);
    hide ApplyAutoOffSpec, SnapshotSpec;
    var snapshot := app.GetSnapshot(snapshotStamp);
    if snapshot.enabled && snapshot.signals.charge.valid
       && snapshot.signals.charge.reading == ChargeTemperatureReading(UNDER_OPTIMAL) {
      session := app.TakeSessionError();
      heat := !session;
    }
  }

  /* ---- Staleness refines the frame history ---- */

  // The last frame that carries a signal.
  function LastFrame(es: seq<Event>, kind: Kind): (r: Option<Event>)
    ensures r.Some? ==> CarriedBy(kind, r.value)
  {
    if es == [] then None
    else if CarriedBy(kind, es[|es| - 1]) then Some(es[|es| - 1])
    else LastFrame(es[..|es| - 1], kind)
  }

  predicate CarriedBy(kind: Kind, e: Event) {
    e.Receive? && e.extended && Carries(kind, e.id, e.data)
  }

  // Each stored signal is what the last frame that carries it reports, under that frame's stamp.
  lemma {:induction false} SignalsFollowFrames(limit: nat, es: seq<Event>, kind: Kind)
    ensures Run(limit, es).state.signals.At(kind)
            == match LastFrame(es, kind)
               case Some(e) => Signal(true, Carried(kind, e.id, e.data), e.stamp)
               case None => NO_SIGNAL
  {
    if es != [] {
      SignalsFollowFrames(limit, es[..|es| - 1], kind);
      hide CarriedBy, Carries, Carried, Step;
      SignalStep(limit, Run(limit, es[..|es| - 1]), es[|es| - 1], kind);
    }
  }

  lemma SignalStep(limit: nat, y: Sys, e: Event, kind: Kind)
    ensures Step(limit, y, e).state.signals.At(kind)
            == if CarriedBy(kind, e) then Signal(true, Carried(kind, e.id, e.data), e.stamp)
               else y.state.signals.At(kind)
  {
    hide Interpret, Carries, Carried, Wanted, SnapshotSpec, EffectiveDeadline;
    if e.Receive? {
      InterpretExactly(e.extended, e.id, e.data, kind);
    }
  }

  // A snapshot stamped `now` reports a signal valid exactly when the latest frame that carries it is less
  // than 30 seconds older, and then with the bits and bytes of that frame.
  lemma {:induction false} StalenessRefinesHistory(limit: nat, es: seq<Event>, kind: Kind, now: int)
    requires Timed(es)
    ensures var shown := SnapshotSpec(limit, Run(limit, es).state, now).signals.At(kind);
            var last := LastFrame(es, kind);
            && (shown.valid <==> last.Some? && now - last.value.stamp < 30_000_000)
            && (shown.valid ==> shown.reading == Carried(kind, last.value.id, last.value.data))
  {
    hide Carries, Carried, CarriedBy, Run, EffectiveDeadline;
    SignalsFollowFrames(limit, es, kind);
    StampsArePositive(es, kind);
  }

  // What a snapshot shows as valid, signal by signal and field by field.
  lemma {:induction false} FieldsShown(limit: nat, es: seq<Event>, now: int)
    requires Timed(es)
    ensures var s := SnapshotSpec(limit, Run(limit, es).state, now).signals;
            && (s.heating.valid ==>
                  match LastFrame(es, HeatingStatus)
                  case Some(e) =>
                    && e.Receive? && e.extended && e.id == 0x12DD54D2 && |e.data| >= 8
                    && s.heating.reading == HeatingReading(Field(e.data, 38, 1), Field(e.data, 45, 3),
                                                           Field(e.data, 42, 3), e.data[6], e.data[7])
                  case None => false)
            && (s.charge.valid ==>
                  match LastFrame(es, ChargeTemperature)
                  case Some(e) =>
                    && e.Receive? && e.extended && e.id == 0x1A5555B2 && |e.data| >= 3
                    && s.charge.reading == ChargeTemperatureReading(Field(e.data, 15, 3))
                  case None => false)
            && (s.limits.valid ==>
                  match LastFrame(es, ChargeLimits)
                  case Some(e) =>
                    && e.Receive? && e.extended && e.id == 0x12DD54D0 && |e.data| >= 8
                    && s.limits.reading == ChargeLimitsReading(Field(e.data, 51, 13), Field(e.data, 25, 13))
                  case None => false)
            && (s.battery.valid ==>
                  match LastFrame(es, BatteryTemperature)
                  case Some(e) =>
                    && e.Receive? && e.extended && e.id == 0x16A954A6 && |e.data| >= 5
                    && s.battery.reading == BatteryTemperatureReading(e.data[4], e.data[3])
                  case None => false)
            && (s.soc.valid ==>
                  match LastFrame(es, Soc)
                  case Some(e) =>
                    && e.Receive? && e.extended && e.id == 0x17FE007B && |e.data| >= 5 && e.data[4] <= 250
                    && e.data[0] == 0x04 && e.data[1] == 0x62 && e.data[2] == 0x02 && e.data[3] == 0x8C
                    && s.soc.reading == SocReading(e.data[4])
                  case None => false)
  {
    hide Field, Run, SnapshotSpec, LastFrame;
    StalenessRefinesHistory(limit, es, HeatingStatus, now);
    StalenessRefinesHistory(limit, es, ChargeTemperature, now);
    StalenessRefinesHistory(limit, es, ChargeLimits, now);
    StalenessRefinesHistory(limit, es, BatteryTemperature, now);
    StalenessRefinesHistory(limit, es, Soc, now);
  }

  // A frame that neither carries a signal nor rejects the routine changes nothing.
  lemma OtherFramesIgnored(limit: nat, y: Sys, e: Event)
    requires e.Receive? && !NegativeResponse(e) && forall kind: Kind :: !CarriedBy(kind, e)
    ensures Step(limit, y, e) == y
  {
    hide Interpret, Carries;
    var m := Interpret(e.extended, e.id, e.data);
    InterpretExactly(e.extended, e.id, e.data, if m.Update? then m.kind else Soc);
    assert m.Update? ==> !CarriedBy(m.kind, e);
  }

  lemma {:induction false} StampsArePositive(es: seq<Event>, kind: Kind)
    requires Timed(es)
    ensures LastFrame(es, kind).Some? ==> LastFrame(es, kind).value.stamp > 0
  {
    hide Carries;
    if es != [] {
      assert Timed(es[..|es| - 1]);
      StampsArePositive(es[..|es| - 1], kind);
    }
  }

  // The control task goes on to send only when heating is enabled and the latest charge-temperature
  // frame is fresh and says "under optimal".
  lemma {:induction false} SendsOnlyWhenWanted(limit: nat, es: seq<Event>, stamp: int)
    requires Timed(es) && Run(limit, es).pc.AtSnapshot?
    ensures var y, last := Run(limit, es), LastFrame(es, ChargeTemperature);
            ControlStep(limit, y, stamp).pc.AtTake? <==>
              && y.state.enabled && last.Some? && stamp - last.value.stamp < 30_000_000
              && Field(last.value.data, 15, 3) == 1
  {
    StalenessRefinesHistory(limit, es, ChargeTemperature, stamp);
    hide Field, LastFrame, Run;
  }

  /* ---- The countdown ---- */

  function Ceiling(remaining: int): nat {
    if remaining <= 0 then 0 else (remaining + US_PER_MINUTE - 1) / US_PER_MINUTE
  }

  // The 32-bit cast is exact exactly up to 2^32 - 1 minutes.
  lemma CastExactly(remaining: int)
    ensures RemainingMinutes(remaining) == Ceiling(remaining) <==> remaining <= UINT32_MAX * US_PER_MINUTE
  {
    if remaining > 0 {
      var c := (remaining + US_PER_MINUTE - 1) / US_PER_MINUTE;
      assert c <= UINT32_MAX <==> remaining <= UINT32_MAX * US_PER_MINUTE;
    }
  }

  // At any one stamp: the countdown is shown exactly when a deadline is live; unless the cast wraps, it
  // is 0 exactly when the auto-off check would fire at that stamp, and otherwise the time left rounded
  // up to whole minutes.
  lemma {:induction false} CountdownAgrees(limit: nat, s: State, now: int)
    ensures var shown, left := SnapshotSpec(limit, s, now).remaining, EffectiveDeadline(limit, s) - now;
            && (shown.Some? <==> s.enabled && EffectiveDeadline(limit, s) > 0)
            && (shown.Some? && left <= UINT32_MAX * US_PER_MINUTE ==>
                  && (shown.value == 0 <==> ApplyAutoOffSpec(limit, s, now).1 != NotOff)
                  && (left > 0 ==> (shown.value - 1) * US_PER_MINUTE < left <= shown.value * US_PER_MINUTE))
  {
    var left := EffectiveDeadline(limit, s) - now;
    CastExactly(left);
  }

  // The cast is safe at every stamp no older than the last command, up to the largest timer setting...
  lemma {:induction false} CountdownFits(limit: nat, es: seq<Event>, now: int)
    requires Timed(es) && now >= LastCommand(es)
    ensures limit <= UINT32_MAX ==>
              EffectiveDeadline(limit, Run(limit, es).state) - now <= UINT32_MAX * US_PER_MINUTE
  {
    DeadlinesRecent(limit, es);
  }

  // When the last command ran.
  function LastCommand(es: seq<Event>): int {
    if es == [] then 0
    else if es[|es| - 1].SetHeating? || es[|es| - 1].SetTimer? then es[|es| - 1].at
    else LastCommand(es[..|es| - 1])
  }

  lemma {:induction false} DeadlinesRecent(limit: nat, es: seq<Event>)
    requires Timed(es)
    ensures var s := Run(limit, es).state;
            && 0 <= LastCommand(es) <= Clock(es)
            && s.since <= LastCommand(es) && s.userDeadline <= LastCommand(es) + UINT32_MAX * US_PER_MINUTE
  {
    if es != [] {
      var before, e := es[..|es| - 1], es[|es| - 1];
      assert Timed(before) && Clock(before) <= e.at;
      DeadlinesRecent(limit, before);
      DeadlinesRecentStep(limit, Run(limit, before), e, LastCommand(before));
      hide Step, Timed;
    }
  }

  lemma DeadlinesRecentStep(limit: nat, y: Sys, e: Event, last: int)
    requires y.state.since <= last && y.state.userDeadline <= last + UINT32_MAX * US_PER_MINUTE
    requires 0 <= last <= e.at
    ensures var s, command := Step(limit, y, e).state, if e.SetHeating? || e.SetTimer? then e.at else last;
            s.since <= command && s.userDeadline <= command + UINT32_MAX * US_PER_MINUTE
  {
    hide Interpret, Wanted, SnapshotSpec, EffectiveDeadline;
  }

  // ... but not at an older stamp: with the safety limit off, a snapshot that read the clock just
  // before the largest timer was set reports 0 minutes left although heating stays on.
  lemma {:induction false} StaleStampWraps()
    ensures var s := Run(0, [SetHeating(true, 10), SetTimer(UINT32_MAX, 20)]).state;
            && SnapshotSpec(0, s, 15).remaining == Some(0)
            && ApplyAutoOffSpec(0, s, 15).1 == NotOff && s.enabled
  {
    var es := [SetHeating(true, 10), SetTimer(UINT32_MAX, 20)];
    assert es[..1] == [SetHeating(true, 10)] && es[..1][..0] == [];
    assert Run(0, []) == START;
    assert Run(0, [SetHeating(true, 10)]) == Step(0, START, SetHeating(true, 10));
    var s := Run(0, es).state;
    assert s == Step(0, Run(0, [SetHeating(true, 10)]), SetTimer(UINT32_MAX, 20)).state;
    assert s.userDeadline == 20 + UINT32_MAX * US_PER_MINUTE;
    assert s.userDeadline - 15 + US_PER_MINUTE - 1 == 0x1_0000_0000 * US_PER_MINUTE + 4;
  }

  // Without a command the countdown never grows, unless the cast of the first one wraps.
  lemma {:induction false} CountdownNeverGrows(limit: nat, es: seq<Event>, more: seq<Event>, t: int, u: int)
    requires t <= u && EffectiveDeadline(limit, Run(limit, es).state) - t <= UINT32_MAX * US_PER_MINUTE
    requires forall e :: e in more ==> !e.SetHeating? && !e.SetTimer?
    ensures var a := SnapshotSpec(limit, Run(limit, es).state, t).remaining;
            var b := SnapshotSpec(limit, Run(limit, es + more).state, u).remaining;
            b.Some? ==> a.Some? && b.value <= a.value
  {
    hide Run;
    DeadlinesFrozen(limit, es, more);
    CountdownShrinks(limit, Run(limit, es).state, Run(limit, es + more).state, t, u);
  }

  lemma CountdownShrinks(limit: nat, s: State, s': State, t: int, u: int)
    requires t <= u && EffectiveDeadline(limit, s) - t <= UINT32_MAX * US_PER_MINUTE
    requires s'.enabled ==> s.enabled && s'.since == s.since && s'.userDeadline == s.userDeadline
    ensures var a, b := SnapshotSpec(limit, s, t).remaining, SnapshotSpec(limit, s', u).remaining;
            b.Some? ==> a.Some? && b.value <= a.value
  {
    assert s'.enabled ==> EffectiveDeadline(limit, s') == EffectiveDeadline(limit, s);
    var d := EffectiveDeadline(limit, s);
    hide EffectiveDeadline;
    CastExactly(d - t);
    CastExactly(d - u);
    hide RemainingMinutes;
    CeilingGrows(d - u, d - t);
  }

  lemma CeilingGrows(a: int, b: int)
    requires a <= b
    ensures Ceiling(a) <= Ceiling(b)
  {
  }

  lemma DeadlinesStay(limit: nat, y: Sys, e: Event)
    requires !e.SetHeating? && !e.SetTimer?
    ensures var s, s' := y.state, Step(limit, y, e).state;
            s'.enabled ==> s.enabled && s'.since == s.since && s'.userDeadline == s.userDeadline
  {
    hide Interpret, Wanted, SnapshotSpec, EffectiveDeadline;
  }

  lemma {:induction false} DeadlinesFrozen(limit: nat, es: seq<Event>, more: seq<Event>)
    requires forall e :: e in more ==> !e.SetHeating? && !e.SetTimer?
    ensures var s, s' := Run(limit, es).state, Run(limit, es + more).state;
            s'.enabled ==> s.enabled && s'.since == s.since && s'.userDeadline == s.userDeadline
  {
    hide Step;
    if more == [] {
      assert es + more == es;
    } else {
      var n := |more| - 1;
      DeadlinesFrozen(limit, es, more[..n]);
      assert (es + more)[..|es| + n] == es + more[..n] && (es + more)[|es| + n] == more[n];
      assert more[n] in more;
      DeadlinesStay(limit, Run(limit, es + more[..n]), more[n]);
    }
  }

  // Every intermediate value of the deadline arithmetic fits 64 bits, while the clock does 62.
  lemma {:induction false} Int64NeverOverflows(limit: nat, es: seq<Event>, now: int)
    requires Timed(es) && limit <= 1440 && Clock(es) < 0x4000_0000_0000_0000 && 0 <= now < 0x4000_0000_0000_0000
    ensures var s := Run(limit, es).state;
            var deadline := EffectiveDeadline(limit, s);
            && 0 <= s.since + MinutesToUs(limit) < 0x8000_0000_0000_0000
            && 0 <= s.userDeadline < 0x8000_0000_0000_0000
            && -0x8000_0000_0000_0000 <= deadline - now && deadline - now + US_PER_MINUTE < 0x8000_0000_0000_0000
  {
    hide Run, LastCommand, AskedDeadline, TurnsInv, Conserved;
    RunKeepsInv(limit, es);
    DeadlinesRecent(limit, es);
  }
}
