/** Evaluate calls that run at the same time. Looking at the stored alarms releases the manager's lock, so a
    breaker-open event, or a failure above the rate threshold, takes three steps: what it does before the
    release, the look, and what it does once it has the lock again. Any number of calls interleave; all other
    events run under the lock from start to end. */
module AlarmRaces {
  import opened Base
  import opened AlarmStore
  import opened AlarmManager

  datatype Phase = Unlocked | Looked(raised: bool) | Finished

  datatype Evaluator = Evaluator(event: Event, phase: Phase)

  datatype Race = Race(manager: Manager, evaluators: seq<Evaluator>)

  const START := Race(AlarmManager.INIT, [])

  datatype RaceStep = Begin(input: Input) | Look(call: nat) | Finish(call: nat, now: int, uuid: string)

  predicate TwoSections(event: Event) { event.AuthFailure? || event.BreakerOpened? }

  /** The alarm that a call with two sections raises. */
  function AlarmFor(event: Event, now: int, uuid: string): Alarm {
    var input := Input(event, now, uuid);
    if event.BreakerOpened? then NewAlarm(CIRCUIT_BREAKER_OPEN, event.target, event.target, "MAJOR", input)
    else NewAlarm(HIGH_AUTH_FAILURE_RATE, "global", "failure rate", "MAJOR", input)
  }

  /** What the look at the stored alarms tells such a call. */
  predicate Sees(st: Store, event: Event) {
    if event.BreakerOpened? then Present(st, BreakerKey(event.target)) else PresentType(st, HIGH_AUTH_FAILURE_RATE)
  }

  predicate CanStep(r: Race, step: RaceStep) {
    match step
    case Begin(input) => input.uuid !in r.manager.store.alarms
    case Look(e) => e < |r.evaluators| && r.evaluators[e].phase.Unlocked?
    case Finish(e, _, uuid) => e < |r.evaluators| && r.evaluators[e].phase.Looked? && uuid !in r.manager.store.alarms
  }

  function Begun(c: Config, r: Race, input: Input): Race {
    var m := r.manager;
    match input.event
    case AuthFailure =>
      var m' := m.(authTotal := m.authTotal + 1, authFailures := m.authFailures + 1);
      Race(m', if RateExceeded(c, m'.authTotal, m'.authFailures) then r.evaluators + [Evaluator(AuthFailure, Unlocked)]
               else r.evaluators)
    case BreakerOpened(t) =>
      Race(m.(cbState := m.cbState[t := true]), r.evaluators + [Evaluator(BreakerOpened(t), Unlocked)])
    case _ => r.(manager := Evaluated(c, m, input))
  }

  function After(c: Config, r: Race, step: RaceStep): Race
    requires CanStep(r, step)
  {
    match step
    case Begin(input) => Begun(c, r, input)
    case Look(e) =>
      var ev := r.evaluators[e];
      r.(evaluators := r.evaluators[e := ev.(phase := Looked(Sees(r.manager.store, ev.event)))])
    case Finish(e, now, uuid) =>
      var ev, st := r.evaluators[e], r.manager.store;
      Race(r.manager.(store := if ev.phase.raised then st else SaveSpec(st, AlarmFor(ev.event, now, uuid), now).0),
           r.evaluators[e := ev.(phase := Finished)])
  }

  function Runs(c: Config, steps: seq<RaceStep>): Option<Race> {
    if steps == [] then Some(START)
    else
      var before := Runs(c, steps[..|steps| - 1]);
      if before.Some? && CanStep(before.value, steps[|steps| - 1])
      then Some(After(c, before.value, steps[|steps| - 1])) else None
  }

  /** The events in the order in which their calls began. */
  function Inputs(steps: seq<RaceStep>): seq<Input> {
    if steps == [] then []
    else
      var last := steps[|steps| - 1];
      Inputs(steps[..|steps| - 1]) + if last.Begin? then [last.input] else []
  }

  /** A call that nobody interrupts does what evaluating its event alone does. */
  lemma UninterruptedIsEvaluated(c: Config, r: Race, input: Input)
    requires CanStep(r, Begin(input)) && TwoSections(input.event)
    ensures var r1, e := After(c, r, Begin(input)), |r.evaluators|;
            if |r1.evaluators| == e then r1.manager == Evaluated(c, r.manager, input)
            else
              && CanStep(r1, Look(e))
              && var r2 := After(c, r1, Look(e));
                 && CanStep(r2, Finish(e, input.now, input.uuid))
                 && After(c, r2, Finish(e, input.now, input.uuid)).manager == Evaluated(c, r.manager, input)
  {
    hide SaveSpec, Present, PresentType, RateExceeded;
    assert input == Input(input.event, input.now, input.uuid);
  }

  // ---- The alarm of a breaker ----

  predicate BeginsOpen(step: RaceStep, target: string) { step.Begin? && step.input.event == BreakerOpened(target) }

  predicate Closes(step: RaceStep, target: string) { step.Begin? && step.input.event == BreakerClosed(target) }

  /** A call for an opened breaker raises its alarm although the breaker has been closed in the meantime. */
  predicate RaisesLate(r: Race, step: RaceStep, target: string) {
    && step.Finish? && step.call < |r.evaluators|
    && r.evaluators[step.call] == Evaluator(BreakerOpened(target), Looked(false)) && !Flag(r.manager, target)
  }

  /** Some call raised the alarm of the breaker late, and no call for the breaker's opening has begun since. */
  ghost predicate Haunted(c: Config, steps: seq<RaceStep>, target: string) {
    && steps != []
    && var before, last := steps[..|steps| - 1], steps[|steps| - 1];
       || (Runs(c, before).Some? && RaisesLate(Runs(c, before).value, last, target))
       || (Haunted(c, before, target) && !BeginsOpen(last, target))
  }

  /** A call is still going to raise the alarm, as far as it knows. */
  ghost predicate MayRaise(r: Race, event: Event) {
    exists e | 0 <= e < |r.evaluators| :: r.evaluators[e] in {Evaluator(event, Unlocked), Evaluator(event, Looked(false))}
  }

  ghost predicate InFlight(r: Race, event: Event) {
    exists e | 0 <= e < |r.evaluators| :: r.evaluators[e].event == event && !r.evaluators[e].phase.Finished?
  }

  ghost predicate RaceInv(r: Race, said: bool, haunted: bool, target: string) {
    && (Flag(r.manager, target) <==> said)
    && (haunted ==> !said)
    && (!said ==> (Present(r.manager.store, BreakerKey(target)) <==> haunted))
    && (said ==> Present(r.manager.store, BreakerKey(target)) || MayRaise(r, BreakerOpened(target)))
  }

  function Said(step: RaceStep, said: bool, target: string): bool {
    BeginsOpen(step, target) || (said && !Closes(step, target))
  }

  lemma StoreOk(c: Config, r: Race, step: RaceStep)
    requires CanStep(r, step) && AlarmStore.Inv(r.manager.store)
    ensures AlarmStore.Inv(After(c, r, step).manager.store)
  {
    if step.Begin? { StoreStep(c, r.manager, step.input); }
    if step.Finish? {
      var a := AlarmFor(r.evaluators[step.call].event, step.now, step.uuid);
      RaiseEffect(r.manager.store, a, step.now, a.Key());
    }
    hide SaveSpec, Evaluated, AlarmStore.Inv;
  }

  lemma {:induction false} StoreAlwaysOk(c: Config, steps: seq<RaceStep>)
    requires Runs(c, steps).Some?
    ensures AlarmStore.Inv(Runs(c, steps).value.manager.store)
  {
    if steps != [] {
      var before := steps[..|steps| - 1];
      StoreAlwaysOk(c, before);
      StoreOk(c, Runs(c, before).value, steps[|steps| - 1]);
      hide AlarmStore.Inv, After;
    }
  }

  lemma MayRaiseKept(c: Config, r: Race, step: RaceStep, event: Event)
    requires CanStep(r, step) && MayRaise(r, event)
    ensures || MayRaise(After(c, r, step), event)
            || (step.Look? && r.evaluators[step.call].event == event && Sees(r.manager.store, event))
            || (step.Finish? && r.evaluators[step.call] == Evaluator(event, Looked(false)))
  {
    hide Evaluated, Sees, SaveSpec, RateExceeded;
    var r' := After(c, r, step);
    var e :| 0 <= e < |r.evaluators| && r.evaluators[e] in {Evaluator(event, Unlocked), Evaluator(event, Looked(false))};
    assert e < |r'.evaluators|;
    if r'.evaluators[e] == r.evaluators[e] || r'.evaluators[e] == Evaluator(event, Looked(false)) {
      assert MayRaise(r', event);
    }
  }

  lemma RaceInvBegin(c: Config, r: Race, input: Input, said: bool, haunted: bool, target: string)
    requires CanStep(r, Begin(input)) && AlarmStore.Inv(r.manager.store) && RaceInv(r, said, haunted, target)
    ensures var step := Begin(input);
            RaceInv(After(c, r, step), Said(step, said, target), haunted && !BeginsOpen(step, target), target)
  {
    var r' := After(c, r, Begin(input));
    if said && !Present(r.manager.store, BreakerKey(target)) { MayRaiseKept(c, r, Begin(input), BreakerOpened(target)); }
    if input.event == BreakerOpened(target) {
      assert r'.evaluators[|r.evaluators|] == Evaluator(BreakerOpened(target), Unlocked);
    }
    if !TwoSections(input.event) { OtherEvent(c, r.manager, input, target); }
    hide Present, AlarmStore.Inv, Evaluated, RateExceeded;
  }

  lemma RaceInvFinish(c: Config, r: Race, step: RaceStep, said: bool, haunted: bool, target: string)
    requires step.Finish? && CanStep(r, step) && AlarmStore.Inv(r.manager.store) && RaceInv(r, said, haunted, target)
    ensures RaceInv(After(c, r, step), said, RaisesLate(r, step, target) || haunted, target)
  {
    var event, key := r.evaluators[step.call].event, BreakerKey(target);
    if said && !Present(r.manager.store, key) { MayRaiseKept(c, r, step, BreakerOpened(target)); }
    RaiseEffect(r.manager.store, AlarmFor(event, step.now, step.uuid), step.now, key);
    hide Present, AlarmStore.Inv, SaveSpec, MayRaise;
  }

  lemma RaceInvLook(c: Config, r: Race, step: RaceStep, said: bool, haunted: bool, target: string)
    requires step.Look? && CanStep(r, step) && RaceInv(r, said, haunted, target)
    ensures RaceInv(After(c, r, step), said, haunted, target)
  {
    if said && !Present(r.manager.store, BreakerKey(target)) { MayRaiseKept(c, r, step, BreakerOpened(target)); }
    hide Present;
  }

  lemma InputsLast(steps: seq<RaceStep>, target: string)
    requires steps != []
    ensures LastOpened(Inputs(steps), target)
            == Said(steps[|steps| - 1], LastOpened(Inputs(steps[..|steps| - 1]), target), target)
  {
    var before, last := Inputs(steps[..|steps| - 1]), steps[|steps| - 1];
    if last.Begin? {
      assert Inputs(steps)[..|before|] == before;
    } else {
      assert Inputs(steps) == before;
    }
  }

  lemma {:induction false} RaceRun(c: Config, steps: seq<RaceStep>, target: string)
    requires Runs(c, steps).Some?
    ensures RaceInv(Runs(c, steps).value, LastOpened(Inputs(steps), target), Haunted(c, steps, target), target)
  {
    if steps == [] {
      assert Inputs(steps) == [];
    } else {
      var before, step := steps[..|steps| - 1], steps[|steps| - 1];
      var r, said, haunted := Runs(c, before).value, LastOpened(Inputs(before), target), Haunted(c, before, target);
      RaceRun(c, before, target);
      StoreAlwaysOk(c, before);
      InputsLast(steps, target);
      match step {
        case Begin(input) => RaceInvBegin(c, r, input, said, haunted, target);
        case Look(_) => RaceInvLook(c, r, step, said, haunted, target);
        case Finish(_, _, _) => RaceInvFinish(c, r, step, said, haunted, target);
      }
      hide RaceInv, After, CanStep, Inputs, LastOpened, AlarmStore.Inv;
    }
  }

  lemma MayRaiseInFlight(r: Race, event: Event)
    requires MayRaise(r, event)
    ensures InFlight(r, event)
  {
    var e :| 0 <= e < |r.evaluators| && r.evaluators[e] in {Evaluator(event, Unlocked), Evaluator(event, Looked(false))};
    assert r.evaluators[e].event == event && !r.evaluators[e].phase.Finished?;
  }

  /** Under every interleaving, whenever no call for the opening of a breaker is under way: the breaker's alarm is
      there exactly when the last thing said about the breaker is that it opened, if and only if no call has
      raised it after the breaker was closed again (and the breaker has not opened since). A breaker with a name
      never has two alarms. */
  lemma AlarmMirrorsIff(c: Config, steps: seq<RaceStep>, target: string)
    requires Runs(c, steps).Some? && !InFlight(Runs(c, steps).value, BreakerOpened(target))
    ensures var st := Runs(c, steps).value.manager.store;
            && ((Present(st, BreakerKey(target)) <==> LastOpened(Inputs(steps), target)) <==> !Haunted(c, steps, target))
            && (target != "" ==> Unique(st, BreakerKey(target)))
  {
    RaceRun(c, steps, target);
    StoreAlwaysOk(c, steps);
    var r := Runs(c, steps).value;
    if MayRaise(r, BreakerOpened(target)) { MayRaiseInFlight(r, BreakerOpened(target)); }
    hide Runs, Present, InFlight, MayRaise, LastOpened, Haunted;
  }

  /** No call for the closing of the breaker falls between the two sections of a call for its opening. */
  ghost predicate GapFree(c: Config, steps: seq<RaceStep>, target: string) {
    steps == []
    || (var before := steps[..|steps| - 1];
        && GapFree(c, before, target)
        && (Closes(steps[|steps| - 1], target) && Runs(c, before).Some? ==>
              !InFlight(Runs(c, before).value, BreakerOpened(target))))
  }

  lemma FlagKept(c: Config, r: Race, step: RaceStep, target: string)
    requires CanStep(r, step) && (InFlight(r, BreakerOpened(target)) ==> Flag(r.manager, target))
    requires Closes(step, target) ==> !InFlight(r, BreakerOpened(target))
    ensures var r' := After(c, r, step); InFlight(r', BreakerOpened(target)) ==> Flag(r'.manager, target)
  {
    hide SaveSpec, Sees, RateExceeded, ClearKey;
    var r', event := After(c, r, step), BreakerOpened(target);
    if InFlight(r', event) && !BeginsOpen(step, target) {
      var e :| 0 <= e < |r'.evaluators| && r'.evaluators[e].event == event && !r'.evaluators[e].phase.Finished?;
      assert e < |r.evaluators| && r.evaluators[e].event == event && !r.evaluators[e].phase.Finished?;
    }
  }

  lemma {:induction false} GapFreeFlag(c: Config, steps: seq<RaceStep>, target: string)
    requires Runs(c, steps).Some? && GapFree(c, steps, target)
    ensures InFlight(Runs(c, steps).value, BreakerOpened(target)) ==> Flag(Runs(c, steps).value.manager, target)
    ensures !Haunted(c, steps, target)
  {
    if steps != [] {
      var before, step := steps[..|steps| - 1], steps[|steps| - 1];
      GapFreeFlag(c, before, target);
      FlagKept(c, Runs(c, before).value, step, target);
      hide After, Flag;
    }
  }

  /** In particular the alarm mirrors the last event in every run in which no closing of the breaker is evaluated
      inside the gap of an opening. */
  lemma AlarmMirrorsWithoutGaps(c: Config, steps: seq<RaceStep>, target: string)
    requires Runs(c, steps).Some? && GapFree(c, steps, target)
    requires !InFlight(Runs(c, steps).value, BreakerOpened(target))
    ensures Present(Runs(c, steps).value.manager.store, BreakerKey(target)) <==> LastOpened(Inputs(steps), target)
  {
    GapFreeFlag(c, steps, target);
    AlarmMirrorsIff(c, steps, target);
  }

  /** An alarm raised late stays up, whatever else happens and however often the breaker is reported closed, until
      the next report that it opened. */
  lemma {:induction false} LateAlarmStays(c: Config, steps: seq<RaceStep>, more: seq<RaceStep>, target: string)
    requires Runs(c, steps + more).Some? && Haunted(c, steps, target)
    requires forall i | 0 <= i < |more| :: !BeginsOpen(more[i], target)
    ensures Haunted(c, steps + more, target)
    ensures var m := Runs(c, steps + more).value.manager; Present(m.store, BreakerKey(target)) && !Flag(m, target)
  {
    var all := steps + more;
    RaceRun(c, all, target);
    if more == [] {
      assert all == steps;
    } else {
      var n := |more| - 1;
      assert all[..|all| - 1] == steps + more[..n] && all[|all| - 1] == more[n];
      LateAlarmStays(c, steps, more[..n], target);
    }
    hide Present, LastOpened;
  }

  lemma OneMoreStep(c: Config, steps: seq<RaceStep>, r: Race, step: RaceStep, all: seq<RaceStep>)
    requires Runs(c, steps) == Some(r) && CanStep(r, step) && all == steps + [step]
    ensures Runs(c, all) == Some(After(c, r, step))
  {
    assert all[..|steps|] == steps && all[|steps|] == step;
  }

  /** Up to the moment before the late raise. */
  lemma ClosedAfterLook(c: Config, target: string, opens: RaceStep, closes: RaceStep)
    requires opens == Begin(Input(BreakerOpened(target), 0, "a")) && closes == Begin(Input(BreakerClosed(target), 0, "b"))
    ensures Runs(c, [opens, Look(0), closes])
            == Some(Race(INIT.(cbState := map[target := false]), [Evaluator(BreakerOpened(target), Looked(false))]))
  {
    var ev := Evaluator(BreakerOpened(target), Unlocked);
    var r1 := Race(INIT.(cbState := map[target := true]), [ev]);
    var r2 := r1.(evaluators := [ev.(phase := Looked(false))]);
    OpensFirst(c, target, opens);
    SeesNothing(c, r1, target);
    ClearsNothing(c, r2, target, closes);
    assert Runs(c, []) == Some(START);
    hide After, Runs, CanStep;
    OneMoreStep(c, [], START, opens, [opens]);
    OneMoreStep(c, [opens], r1, Look(0), [opens, Look(0)]);
    OneMoreStep(c, [opens, Look(0)], r2, closes, [opens, Look(0), closes]);
  }

  lemma OpensFirst(c: Config, target: string, opens: RaceStep)
    requires opens == Begin(Input(BreakerOpened(target), 0, "a"))
    ensures CanStep(START, opens)
    ensures After(c, START, opens)
            == Race(INIT.(cbState := map[target := true]), [Evaluator(BreakerOpened(target), Unlocked)])
  {
    assert [] + [Evaluator(BreakerOpened(target), Unlocked)] == [Evaluator(BreakerOpened(target), Unlocked)];
  }

  lemma SeesNothing(c: Config, r: Race, target: string)
    requires r.manager.store == EMPTY && r.evaluators == [Evaluator(BreakerOpened(target), Unlocked)]
    ensures CanStep(r, Look(0))
    ensures After(c, r, Look(0)) == r.(evaluators := [Evaluator(BreakerOpened(target), Looked(false))])
  {
    assert !Present(EMPTY, BreakerKey(target));
  }

  lemma ClearsNothing(c: Config, r: Race, target: string, closes: RaceStep)
    requires closes == Begin(Input(BreakerClosed(target), 0, "b")) && r.manager == INIT.(cbState := map[target := true])
    ensures CanStep(r, closes) && After(c, r, closes) == r.(manager := INIT.(cbState := map[target := false]))
  {
    assert map[target := true][target := false] == map[target := false];
    assert !Present(EMPTY, BreakerKey(target));
  }

  /** Such a run: the breaker is reported closed between the look and the raise of its opening, and then the alarm
      is up although the last report says closed. */
  lemma ClosedInsideGap(c: Config, target: string) returns (steps: seq<RaceStep>)
    ensures Runs(c, steps).Some? && !InFlight(Runs(c, steps).value, BreakerOpened(target))
    ensures Haunted(c, steps, target)
    ensures Present(Runs(c, steps).value.manager.store, BreakerKey(target)) && !LastOpened(Inputs(steps), target)
  {
    var opens, closes := Begin(Input(BreakerOpened(target), 0, "a")), Begin(Input(BreakerClosed(target), 0, "b"));
    var r := Race(INIT.(cbState := map[target := false]), [Evaluator(BreakerOpened(target), Looked(false))]);
    var before, late := [opens, Look(0), closes], Finish(0, 0, "c");
    steps := before + [late];
    ClosedAfterLook(c, target, opens, closes);
    OneMoreStep(c, before, r, late, steps);
    FinishedOnly(c, r, late);
    assert steps[..3] == before && RaisesLate(r, late, target);
    hide Runs, After, InFlight;
    assert Haunted(c, steps, target);
    RaceRun(c, steps, target);
    hide Present, LastOpened;
  }

  lemma FinishedOnly(c: Config, r: Race, step: RaceStep)
    requires |r.evaluators| == 1 && step.Finish? && CanStep(r, step)
    ensures forall event :: !InFlight(After(c, r, step), event)
  {
    hide SaveSpec;
  }

  // ---- The failure-rate alarm ----

  ghost predicate RateInv(r: Race, ever: bool) {
    && (PresentType(r.manager.store, HIGH_AUTH_FAILURE_RATE) <==> Present(r.manager.store, RATE_KEY))
    && (Present(r.manager.store, RATE_KEY) ==> ever)
    && (ever ==> Present(r.manager.store, RATE_KEY) || MayRaise(r, AuthFailure))
    && (forall e | 0 <= e < |r.evaluators| && !r.evaluators[e].event.BreakerOpened? ::
          ever && r.evaluators[e].event == AuthFailure)
  }

  /** A failed authentication takes the rate above the threshold. */
  predicate Exceeds(c: Config, r: Race, step: RaceStep) {
    && step.Begin? && step.input.event == AuthFailure
    && RateExceeded(c, r.manager.authTotal + 1, r.manager.authFailures + 1)
  }

  lemma RateBegin(c: Config, r: Race, input: Input, ever: bool)
    requires CanStep(r, Begin(input)) && AlarmStore.Inv(r.manager.store) && RateInv(r, ever)
    ensures RateInv(After(c, r, Begin(input)), ever || Exceeds(c, r, Begin(input)))
  {
    var r' := After(c, r, Begin(input));
    if ever && !Present(r.manager.store, RATE_KEY) { MayRaiseKept(c, r, Begin(input), AuthFailure); }
    if Exceeds(c, r, Begin(input)) {
      assert r'.evaluators[|r.evaluators|] == Evaluator(AuthFailure, Unlocked);
    }
    if !TwoSections(input.event) { RateStep(c, r.manager, input); }
    hide Present, PresentType, AlarmStore.Inv, Evaluated, RateExceeded;
  }

  lemma RateLook(c: Config, r: Race, step: RaceStep, ever: bool)
    requires step.Look? && CanStep(r, step) && RateInv(r, ever)
    ensures RateInv(After(c, r, step), ever)
  {
    if ever && !Present(r.manager.store, RATE_KEY) { MayRaiseKept(c, r, step, AuthFailure); }
    hide Present, PresentType;
  }

  lemma RateFinish(c: Config, r: Race, step: RaceStep, ever: bool)
    requires step.Finish? && CanStep(r, step) && AlarmStore.Inv(r.manager.store) && RateInv(r, ever)
    ensures RateInv(After(c, r, step), ever)
  {
    var a := AlarmFor(r.evaluators[step.call].event, step.now, step.uuid);
    if ever && !Present(r.manager.store, RATE_KEY) { MayRaiseKept(c, r, step, AuthFailure); }
    RaiseEffect(r.manager.store, a, step.now, RATE_KEY);
    RaisedTypes(r.manager.store, a, step.now);
    hide Present, PresentType, AlarmStore.Inv, SaveSpec, MayRaise;
  }

  function Counts(m: Manager): (nat, nat) { (m.authTotal, m.authFailures) }

  /** Only the first section of a call counts. */
  function CountsAfter(counts: (nat, nat), step: RaceStep): (nat, nat) {
    if !step.Begin? then counts
    else
      match step.input.event
      case AuthSuccess => (counts.0 + 1, counts.1)
      case AuthFailure => (counts.0 + 1, counts.1 + 1)
      case MetricsReset => (0, 0)
      case _ => counts
  }

  lemma CountersStep(c: Config, r: Race, step: RaceStep)
    requires CanStep(r, step)
    ensures Counts(After(c, r, step).manager) == CountsAfter(Counts(r.manager), step)
  {
    hide SaveSpec, ClearKey, RateExceeded, Present, PresentType, Sees;
  }

  lemma {:induction false} CountersRun(c: Config, steps: seq<RaceStep>)
    requires Runs(c, steps).Some?
    ensures Counts(Runs(c, steps).value.manager) == (Total(Inputs(steps)), Failures(Inputs(steps)))
  {
    if steps == [] {
      assert Inputs(steps) == [];
    } else {
      var before, last := steps[..|steps| - 1], steps[|steps| - 1];
      CountersRun(c, before);
      CountersStep(c, Runs(c, before).value, last);
      hide After, CanStep;
      if last.Begin? {
        assert Inputs(steps)[..|Inputs(before)|] == Inputs(before);
      } else {
        assert Inputs(steps) == Inputs(before);
      }
    }
  }

  lemma {:induction false} RateRaceRun(c: Config, steps: seq<RaceStep>)
    requires Runs(c, steps).Some?
    ensures RateInv(Runs(c, steps).value, EverExceeded(c, Inputs(steps)))
  {
    if steps == [] {
      assert Inputs(steps) == [];
    } else {
      var before, step := steps[..|steps| - 1], steps[|steps| - 1];
      var r, ever := Runs(c, before).value, EverExceeded(c, Inputs(before));
      RateRaceRun(c, before);
      StoreAlwaysOk(c, before);
      EverLast(c, steps);
      match step {
        case Begin(input) => RateBegin(c, r, input, ever);
        case Look(_) => RateLook(c, r, step, ever);
        case Finish(_, _, _) => RateFinish(c, r, step, ever);
      }
      hide RateInv, After, CanStep, Inputs, EverExceeded, AlarmStore.Inv, Exceeds;
    }
  }

  lemma EverLast(c: Config, steps: seq<RaceStep>)
    requires steps != [] && Runs(c, steps).Some?
    ensures var before, step := steps[..|steps| - 1], steps[|steps| - 1];
            && Runs(c, before).Some?
            && (EverExceeded(c, Inputs(steps))
                <==> EverExceeded(c, Inputs(before)) || Exceeds(c, Runs(c, before).value, step))
  {
    var before, last := Inputs(steps[..|steps| - 1]), steps[|steps| - 1];
    CountersRun(c, steps[..|steps| - 1]);
    hide RateExceeded, After;
    if last.Begin? {
      assert Inputs(steps)[..|before|] == before && Inputs(steps)[|before|] == last.input;
    } else {
      assert Inputs(steps) == before;
    }
  }

  /** Under every interleaving, whenever no failed authentication is being evaluated: the failure-rate alarm is
      there, once, exactly when some failure took the rate above the threshold; and at all times it is there only
      if one did. */
  lemma RateAlarmMirrorsRaces(c: Config, steps: seq<RaceStep>)
    requires Runs(c, steps).Some?
    ensures var r, inputs := Runs(c, steps).value, Inputs(steps);
            var exceeded := exists n | 1 <= n <= |inputs| :: ExceedsAt(c, inputs, n);
            && (Present(r.manager.store, RATE_KEY) ==> exceeded)
            && (!InFlight(r, AuthFailure) ==> (Present(r.manager.store, RATE_KEY) <==> exceeded))
            && Unique(r.manager.store, RATE_KEY)
  {
    RateRaceRun(c, steps);
    StoreAlwaysOk(c, steps);
    EverExceededMeans(c, Inputs(steps));
    var r := Runs(c, steps).value;
    if MayRaise(r, AuthFailure) { MayRaiseInFlight(r, AuthFailure); }
    hide Runs, Present, InFlight, MayRaise, EverExceeded, ExceedsAt;
  }

  // ---- What has become unreachable ----

  lemma ReportRaceStep(c: Config, r: Race, step: RaceStep, key: DedupKey)
    requires CanStep(r, step) && AlarmStore.Inv(r.manager.store) && IsReportType(key.alarmType)
    requires forall e | 0 <= e < |r.evaluators| :: TwoSections(r.evaluators[e].event)
    ensures Present(After(c, r, step).manager.store, key)
            <==> Present(r.manager.store, key) || (step.Begin? && Reports(step.input.event, key))
    ensures forall e | 0 <= e < |After(c, r, step).evaluators| :: TwoSections(After(c, r, step).evaluators[e].event)
  {
    if step.Begin? { ReportStep(c, r.manager, step.input, key); }
    if step.Finish? {
      var a := AlarmFor(r.evaluators[step.call].event, step.now, step.uuid);
      RaiseEffect(r.manager.store, a, step.now, key);
      assert a.Key() != key;
    }
    hide SaveSpec, Present, AlarmStore.Inv, RateExceeded, Sees;
    if step.Begin? && !TwoSections(step.input.event) { hide Evaluated; }
  }

  lemma {:induction false} ReportRaceRun(c: Config, steps: seq<RaceStep>, key: DedupKey)
    requires Runs(c, steps).Some? && IsReportType(key.alarmType)
    ensures Present(Runs(c, steps).value.manager.store, key) <==> EverReported(Inputs(steps), key)
    ensures var r := Runs(c, steps).value; forall e | 0 <= e < |r.evaluators| :: TwoSections(r.evaluators[e].event)
  {
    if steps == [] {
      assert Inputs(steps) == [];
    } else {
      var before, step := steps[..|steps| - 1], steps[|steps| - 1];
      ReportRaceRun(c, before, key);
      StoreAlwaysOk(c, before);
      ReportRaceStep(c, Runs(c, before).value, step, key);
      hide After, CanStep, AlarmStore.Inv, Present, EverReported, Reports, TwoSections;
      if step.Begin? {
        assert Inputs(steps)[..|Inputs(before)|] == Inputs(before) && Inputs(steps)[|Inputs(before)|] == step.input;
        ReportedLast(Inputs(steps), key);
      } else {
        assert Inputs(steps) == Inputs(before);
      }
    }
  }

  /** The unreachable alarms mirror the events begun under every interleaving and at every moment of it. */
  lemma UnreachableAlarmsMirrorRaces(c: Config, steps: seq<RaceStep>, name: string)
    requires Runs(c, steps).Some?
    ensures var st, inputs := Runs(c, steps).value.manager.store, Inputs(steps);
            && (Present(st, DedupKey(AAA_UNREACHABLE, name))
                <==> exists i | 0 <= i < |inputs| :: inputs[i].event == AaaUnreachable(name))
            && (Present(st, DedupKey(DB_UNREACHABLE, name))
                <==> name == "postgres" && exists i | 0 <= i < |inputs| :: inputs[i].event.DbUnreachable?)
            && (Present(st, DedupKey(REDIS_UNREACHABLE, name))
                <==> name == "redis" && exists i | 0 <= i < |inputs| :: inputs[i].event.RedisUnreachable?)
            && (Present(st, DedupKey(NRF_UNREACHABLE, name))
                <==> name == "nrf" && exists i | 0 <= i < |inputs| :: inputs[i].event.NrfUnreachable?)
            && (name != "" ==> forall alarmType :: Unique(st, DedupKey(alarmType, name)))
  {
    ReportRaceRun(c, steps, DedupKey(AAA_UNREACHABLE, name));
    ReportRaceRun(c, steps, DedupKey(DB_UNREACHABLE, name));
    ReportRaceRun(c, steps, DedupKey(REDIS_UNREACHABLE, name));
    ReportRaceRun(c, steps, DedupKey(NRF_UNREACHABLE, name));
    StoreAlwaysOk(c, steps);
    if name != "" { NamedIsUnique(Runs(c, steps).value.manager.store, name); }
    ReportsByName(Inputs(steps), name);
    hide Runs, Present, Inputs, AlarmStore.Inv, Unique, EverReported;
  }

  // ---- A breaker without a name ----

  lemma BothLook(c: Config, opens: RaceStep)
    requires opens == Begin(Input(BreakerOpened(""), 0, ""))
    ensures var looked := Evaluator(BreakerOpened(""), Looked(false));
            Runs(c, [opens, opens, Look(0), Look(1)]) == Some(Race(INIT.(cbState := map["" := true]), [looked, looked]))
  {
    var ev := Evaluator(BreakerOpened(""), Unlocked);
    var m, looked := INIT.(cbState := map["" := true]), ev.(phase := Looked(false));
    var r1, r2, r3, r4 := Race(m, [ev]), Race(m, [ev, ev]), Race(m, [looked, ev]), Race(m, [looked, looked]);
    assert After(c, START, opens) == r1 && After(c, r1, opens) == r2;
    assert After(c, r2, Look(0)) == r3 && After(c, r3, Look(1)) == r4;
    assert Runs(c, []) == Some(START);
    hide After, Runs;
    OneMoreStep(c, [], START, opens, [opens]);
    OneMoreStep(c, [opens], r1, opens, [opens, opens]);
    OneMoreStep(c, [opens, opens], r2, Look(0), [opens, opens, Look(0)]);
    OneMoreStep(c, [opens, opens, Look(0)], r3, Look(1), [opens, opens, Look(0), Look(1)]);
  }

  /** Deduplication is off for an empty target, so two calls that look before either raises both raise. */
  lemma UnnamedBreakerTwice(c: Config) returns (steps: seq<RaceStep>)
    ensures Runs(c, steps).Some? && !Unique(Runs(c, steps).value.manager.store, BreakerKey(""))
  {
    var opens, looked := Begin(Input(BreakerOpened(""), 0, "")), Evaluator(BreakerOpened(""), Looked(false));
    var r := Race(INIT.(cbState := map["" := true]), [looked, looked]);
    var before := [opens, opens, Look(0), Look(1)];
    BothLook(c, opens);
    BothRaise(c, r);
    hide After, Runs, Unique;
    OneMoreStep(c, before, r, Finish(0, 0, "a"), before + [Finish(0, 0, "a")]);
    steps := before + [Finish(0, 0, "a")] + [Finish(1, 0, "b")];
    OneMoreStep(c, before + [Finish(0, 0, "a")], After(c, r, Finish(0, 0, "a")), Finish(1, 0, "b"), steps);
  }

  /** So a breaker is sure never to have two alarms if and only if it has a name. */
  lemma NeverTwiceIff(c: Config, target: string)
    ensures target != ""
            <==> forall steps | Runs(c, steps).Some? :: Unique(Runs(c, steps).value.manager.store, BreakerKey(target))
  {
    if target != "" {
      forall steps | Runs(c, steps).Some? ensures Unique(Runs(c, steps).value.manager.store, BreakerKey(target)) {
        StoreAlwaysOk(c, steps);
        hide Runs;
      }
    } else {
      var steps := UnnamedBreakerTwice(c);
    }
  }

  lemma BothRaise(c: Config, r: Race)
    requires |r.evaluators| == 2 && r.manager.store == EMPTY
    requires r.evaluators[0] == r.evaluators[1] == Evaluator(BreakerOpened(""), Looked(false))
    ensures CanStep(r, Finish(0, 0, "a"))
    ensures var r' := After(c, r, Finish(0, 0, "a"));
            && CanStep(r', Finish(1, 0, "b"))
            && !Unique(After(c, r', Finish(1, 0, "b")).manager.store, BreakerKey(""))
  {
    var r' := After(c, r, Finish(0, 0, "a"));
    var st := After(c, r', Finish(1, 0, "b")).manager.store;
    assert At(st, "a", BreakerKey("")) && At(st, "b", BreakerKey(""));
    assert "a" != "b";
  }
}
