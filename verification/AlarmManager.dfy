/** The alarm manager: events from the Biz Pod raise and clear alarms. Events are evaluated one at a time;
    each carries the clock reading and the UUID that raising an alarm would use. */
module AlarmManager {
  import opened Base
  import opened AlarmStore

  const AAA_UNREACHABLE := "NSSAA_AAA_SERVER_UNREACHABLE"
  const DB_UNREACHABLE := "NSSAA_DB_UNREACHABLE"
  const REDIS_UNREACHABLE := "NSSAA_REDIS_UNREACHABLE"
  const NRF_UNREACHABLE := "NSSAA_NRF_UNREACHABLE"
  const HIGH_AUTH_FAILURE_RATE := "NSSAA_HIGH_AUTH_FAILURE_RATE"
  const CIRCUIT_BREAKER_OPEN := "NSSAA_CIRCUIT_BREAKER_OPEN"

  datatype Event =
    | AuthSuccess
    | AuthFailure
    | BreakerOpened(target: string)
    | BreakerClosed(target: string)
    | AaaUnreachable(target: string)
    | DbUnreachable(target: string)
    | RedisUnreachable(target: string)
    | NrfUnreachable(target: string)
    | MetricsReset
    | Unknown

  /** The failure-rate threshold, and the rate itself as a function of failures and total: the percentage with
      whatever rounding the arithmetic has. */
  datatype Config = Config(rate: (nat, nat) -> real, threshold: real)

  datatype Input = Input(event: Event, now: int, uuid: string)

  datatype Manager = Manager(store: Store, cbState: map<string, bool>, authTotal: nat, authFailures: nat)

  const DEFAULT_THRESHOLD: real := 10.0

  const INIT := Manager(EMPTY, map[], 0, 0)

  function NewAlarm(alarmType: string, obj: string, problem: string, severity: string, input: Input): Alarm {
    Alarm(input.uuid, alarmType, obj, problem, severity, Some(input.now), false, "", None)
  }

  function Raise(st: Store, alarmType: string, obj: string, problem: string, severity: string, input: Input): Store {
    SaveSpec(st, NewAlarm(alarmType, obj, problem, severity, input), input.now).0
  }

  predicate At(st: Store, id: string, key: DedupKey) { id in st.alarms && st.alarms[id].Key() == key }

  predicate Present(st: Store, key: DedupKey) { exists id | id in st.alarms :: At(st, id, key) }

  predicate PresentType(st: Store, alarmType: string) { exists id | id in st.alarms :: st.alarms[id].alarmType == alarmType }

  /** All alarms under a key go, and the table entry with them. */
  function ClearKey(st: Store, key: DedupKey): Store {
    if !Present(st, key) then st
    else Store(map id | id in st.alarms && !At(st, id, key) :: st.alarms[id], st.dedup - {key})
  }

  /** The share of failures, in percent, is above the threshold. */
  predicate RateExceeded(c: Config, total: nat, failures: nat) {
    total > 0 && c.rate(failures, total) > c.threshold
  }

  function BreakerKey(target: string): DedupKey { DedupKey(CIRCUIT_BREAKER_OPEN, target) }

  const RATE_KEY := DedupKey(HIGH_AUTH_FAILURE_RATE, "global")

  /** The `problem` texts are those of the source up to the wording around the target. */
  function Evaluated(c: Config, m: Manager, input: Input): Manager {
    match input.event
    case AuthSuccess => m.(authTotal := m.authTotal + 1)
    case AuthFailure =>
      var m' := m.(authTotal := m.authTotal + 1, authFailures := m.authFailures + 1);
      if RateExceeded(c, m'.authTotal, m'.authFailures) && !PresentType(m.store, HIGH_AUTH_FAILURE_RATE)
      then m'.(store := Raise(m.store, HIGH_AUTH_FAILURE_RATE, "global", "failure rate", "MAJOR", input)) else m'
    case BreakerOpened(t) =>
      var m' := m.(cbState := m.cbState[t := true]);
      if Present(m.store, BreakerKey(t)) then m'
      else m'.(store := Raise(m.store, CIRCUIT_BREAKER_OPEN, t, t, "MAJOR", input))
    case BreakerClosed(t) =>
      if t in m.cbState && m.cbState[t]
      then m.(cbState := m.cbState[t := false], store := ClearKey(m.store, BreakerKey(t))) else m
    case AaaUnreachable(t) => m.(store := Raise(m.store, AAA_UNREACHABLE, t, t, "CRITICAL", input))
    case DbUnreachable(t) => m.(store := Raise(m.store, DB_UNREACHABLE, "postgres", t, "CRITICAL", input))
    case RedisUnreachable(t) => m.(store := Raise(m.store, REDIS_UNREACHABLE, "redis", t, "MAJOR", input))
    case NrfUnreachable(t) => m.(store := Raise(m.store, NRF_UNREACHABLE, "nrf", t, "MAJOR", input))
    case MetricsReset => m.(authTotal := 0, authFailures := 0)
    case Unknown => m
  }

  function Run(c: Config, inputs: seq<Input>): Manager {
    if inputs == [] then INIT else Evaluated(c, Run(c, inputs[..|inputs| - 1]), inputs[|inputs| - 1])
  }

  /** No UUID is handed out twice. */
  ghost predicate FreshIDs(inputs: seq<Input>) {
    forall i, j | 0 <= i < j < |inputs| :: inputs[i].uuid != inputs[j].uuid
  }

  // ---- Reference readings of the event history ----

  predicate LastOpened(inputs: seq<Input>, target: string) {
    if inputs == [] then false
    else
      match inputs[|inputs| - 1].event
      case BreakerOpened(t) => t == target || LastOpened(inputs[..|inputs| - 1], target)
      case BreakerClosed(t) => t != target && LastOpened(inputs[..|inputs| - 1], target)
      case _ => LastOpened(inputs[..|inputs| - 1], target)
  }

  function Total(inputs: seq<Input>): nat {
    if inputs == [] || inputs[|inputs| - 1].event.MetricsReset? then 0
    else Total(inputs[..|inputs| - 1]) + if inputs[|inputs| - 1].event in {AuthSuccess, AuthFailure} then 1 else 0
  }

  function Failures(inputs: seq<Input>): nat {
    if inputs == [] || inputs[|inputs| - 1].event.MetricsReset? then 0
    else Failures(inputs[..|inputs| - 1]) + if inputs[|inputs| - 1].event.AuthFailure? then 1 else 0
  }

  /** Some failed authentication took the rate above the threshold. */
  predicate EverExceeded(c: Config, inputs: seq<Input>) {
    inputs != []
    && (EverExceeded(c, inputs[..|inputs| - 1])
        || (inputs[|inputs| - 1].event.AuthFailure? && RateExceeded(c, Total(inputs), Failures(inputs))))
  }

  // ---- What raising and clearing do to the alarms of a key ----

  ghost predicate Unique(st: Store, key: DedupKey) { forall id1, id2 | At(st, id1, key) && At(st, id2, key) :: id1 == id2 }

  lemma RaiseEffect(st: Store, alarm: Alarm, now: int, key: DedupKey)
    requires AlarmStore.Inv(st) && alarm.id !in st.alarms
    ensures var st' := SaveSpec(st, alarm, now).0;
            && AlarmStore.Inv(st') && st'.alarms.Keys <= st.alarms.Keys + {alarm.id}
            && (key == alarm.Key() ==> Present(st', key) && (!Present(st, key) ==> Unique(st', key)))
            && (key != alarm.Key() ==> (Present(st', key) <==> Present(st, key)) && (Unique(st, key) ==> Unique(st', key)))
  {
    SaveKeepsInvIff(st, alarm, now);
    var st' := SaveSpec(st, alarm, now).0;
    if key == alarm.Key() {
      var id := SaveSpec(st, alarm, now).1;
      assert At(st', id, key);
    } else {
      assert forall id :: At(st', id, key) <==> At(st, id, key);
    }
  }

  lemma ClearEffect(st: Store, cleared: DedupKey, key: DedupKey)
    requires AlarmStore.Inv(st)
    ensures var st' := ClearKey(st, cleared);
            && AlarmStore.Inv(st') && st'.alarms.Keys <= st.alarms.Keys
            && (key == cleared ==> !Present(st', key))
            && (key != cleared ==> (Present(st', key) <==> Present(st, key)) && (Unique(st, key) ==> Unique(st', key)))
  {
    var st' := ClearKey(st, cleared);
    assert forall id :: At(st', id, key) <==> At(st, id, key) && key != cleared;
  }

  // ---- Every sequence of events ----

  predicate Flag(m: Manager, target: string) { target in m.cbState && m.cbState[target] }

  ghost predicate MirrorOk(m: Manager, isOpen: bool, target: string) {
    && (Flag(m, target) <==> isOpen)
    && (Present(m.store, BreakerKey(target)) <==> isOpen)
    && Unique(m.store, BreakerKey(target))
  }

  lemma StoreStep(c: Config, m: Manager, input: Input)
    requires AlarmStore.Inv(m.store) && input.uuid !in m.store.alarms
    ensures AlarmStore.Inv(Evaluated(c, m, input).store)
    ensures Evaluated(c, m, input).store.alarms.Keys <= m.store.alarms.Keys + {input.uuid}
  {
    forall a: Alarm | a.id == input.uuid
      ensures AlarmStore.Inv(SaveSpec(m.store, a, input.now).0)
              && SaveSpec(m.store, a, input.now).0.alarms.Keys <= m.store.alarms.Keys + {a.id}
    {
      RaiseEffect(m.store, a, input.now, a.Key());
    }
    forall key ensures AlarmStore.Inv(ClearKey(m.store, key)) && ClearKey(m.store, key).alarms.Keys <= m.store.alarms.Keys {
      ClearEffect(m.store, key, key);
    }
    hide SaveSpec, ClearKey, AlarmStore.Inv;
  }

  lemma FiledStep(c: Config, m: Manager, input: Input)
    requires Filed(m.store)
    ensures Filed(Evaluated(c, m, input).store)
  {
    forall a: Alarm ensures Filed(SaveSpec(m.store, a, input.now).0) {
      AlwaysFiled(m.store, a, "", false, "", input.now);
    }
    assert forall key :: Filed(ClearKey(m.store, key));
    hide SaveSpec, ClearKey, Filed;
  }

  lemma OpenedEvent(c: Config, m: Manager, input: Input, target: string)
    requires AlarmStore.Inv(m.store) && input.uuid !in m.store.alarms && input.event == BreakerOpened(target)
    ensures var m', key := Evaluated(c, m, input), BreakerKey(target);
            Flag(m', target) && Present(m'.store, key) && (Unique(m.store, key) ==> Unique(m'.store, key))
  {
    var alarm := NewAlarm(CIRCUIT_BREAKER_OPEN, target, target, "MAJOR", input);
    RaiseEffect(m.store, alarm, input.now, BreakerKey(target));
    hide SaveSpec, Present, Unique, AlarmStore.Inv;
  }

  /** Of all other events only closing a breaker that counts as open clears its alarm. */
  lemma OtherEvent(c: Config, m: Manager, input: Input, target: string)
    requires AlarmStore.Inv(m.store) && input.uuid !in m.store.alarms && input.event != BreakerOpened(target)
    ensures var m', key := Evaluated(c, m, input), BreakerKey(target);
            && (if input.event == BreakerClosed(target)
                then if Flag(m, target) then !Flag(m', target) && !Present(m'.store, key) else m' == m
                else (Flag(m', target) <==> Flag(m, target)) && (Present(m'.store, key) <==> Present(m.store, key)))
            && (Unique(m.store, key) ==> Unique(m'.store, key))
  {
    var key := BreakerKey(target);
    forall a: Alarm | a.id == input.uuid && a.Key() != key
      ensures var st' := SaveSpec(m.store, a, input.now).0;
              (Present(st', key) <==> Present(m.store, key)) && (Unique(m.store, key) ==> Unique(st', key))
    {
      RaiseEffect(m.store, a, input.now, key);
    }
    if input.event.BreakerClosed? {
      ClearEffect(m.store, BreakerKey(input.event.target), key);
      AbsentIsUnique(ClearKey(m.store, BreakerKey(input.event.target)), key);
    }
    hide SaveSpec, ClearKey, Present, Unique, AlarmStore.Inv, RateExceeded, PresentType;
  }

  lemma AbsentIsUnique(st: Store, key: DedupKey)
    ensures !Present(st, key) ==> Unique(st, key)
  {
  }

  lemma MirrorStep(c: Config, m: Manager, input: Input, isOpen: bool, target: string)
    requires AlarmStore.Inv(m.store) && input.uuid !in m.store.alarms && MirrorOk(m, isOpen, target)
    ensures MirrorOk(Evaluated(c, m, input),
                     if input.event == BreakerOpened(target) then true
                     else if input.event == BreakerClosed(target) then false else isOpen,
                     target)
  {
    if input.event == BreakerOpened(target) {
      OpenedEvent(c, m, input, target);
    } else {
      OtherEvent(c, m, input, target);
    }
    hide Evaluated, Flag, Present, Unique, AlarmStore.Inv;
  }

  function Issued(inputs: seq<Input>): set<string> { set i | 0 <= i < |inputs| :: inputs[i].uuid }

  lemma IssuedLast(inputs: seq<Input>)
    requires inputs != [] && FreshIDs(inputs)
    ensures var before, last := inputs[..|inputs| - 1], inputs[|inputs| - 1];
            FreshIDs(before) && last.uuid !in Issued(before) && Issued(inputs) >= Issued(before) + {last.uuid}
  {
    var before := inputs[..|inputs| - 1];
    assert forall i | 0 <= i < |before| :: before[i] == inputs[i];
  }

  lemma {:induction false} StoreRun(c: Config, inputs: seq<Input>)
    requires FreshIDs(inputs)
    ensures AlarmStore.Inv(Run(c, inputs).store) && Run(c, inputs).store.alarms.Keys <= Issued(inputs)
  {
    if inputs != [] {
      IssuedLast(inputs);
      StoreRun(c, inputs[..|inputs| - 1]);
      StoreStep(c, Run(c, inputs[..|inputs| - 1]), inputs[|inputs| - 1]);
      hide AlarmStore.Inv, Evaluated;
    }
  }

  lemma {:induction false} MirrorRun(c: Config, inputs: seq<Input>, target: string)
    requires FreshIDs(inputs)
    ensures MirrorOk(Run(c, inputs), LastOpened(inputs, target), target)
  {
    if inputs != [] {
      var before, last := inputs[..|inputs| - 1], inputs[|inputs| - 1];
      IssuedLast(inputs);
      StoreRun(c, before);
      MirrorRun(c, before, target);
      MirrorStep(c, Run(c, before), last, LastOpened(before, target), target);
      hide AlarmStore.Inv, Evaluated, MirrorOk;
    }
  }

  /** An alarm for an open breaker is there exactly when the last thing said about that breaker is that it
      is open, and there is never more than one. */
  lemma BreakerAlarmMirrorsLastEvent(c: Config, inputs: seq<Input>, target: string)
    requires FreshIDs(inputs)
    ensures var st := Run(c, inputs).store;
            && (Present(st, BreakerKey(target)) <==> LastOpened(inputs, target))
            && Unique(st, BreakerKey(target))
  {
    MirrorRun(c, inputs, target);
  }

  /** The counters are the authentications and failures since the last reset, so failures never exceed the total. */
  lemma {:induction false} CountersCountEvents(c: Config, inputs: seq<Input>)
    ensures var m := Run(c, inputs);
            m.authTotal == Total(inputs) && m.authFailures == Failures(inputs) && m.authFailures <= m.authTotal
  {
    if inputs != [] {
      CountersCountEvents(c, inputs[..|inputs| - 1]);
      hide Raise, ClearKey, RateExceeded;
    }
  }

  lemma RateStep(c: Config, m: Manager, input: Input)
    requires AlarmStore.Inv(m.store) && input.uuid !in m.store.alarms
    requires PresentType(m.store, HIGH_AUTH_FAILURE_RATE) <==> Present(m.store, RATE_KEY)
    ensures var m' := Evaluated(c, m, input);
            && (PresentType(m'.store, HIGH_AUTH_FAILURE_RATE) <==> Present(m'.store, RATE_KEY))
            && (Present(m'.store, RATE_KEY) <==>
                  Present(m.store, RATE_KEY)
                  || (input.event.AuthFailure? && RateExceeded(c, m'.authTotal, m'.authFailures)))
  {
    forall a: Alarm | a.id == input.uuid && (a.alarmType == HIGH_AUTH_FAILURE_RATE ==> a.Key() == RATE_KEY)
      ensures var st' := SaveSpec(m.store, a, input.now).0;
              && (Present(st', RATE_KEY) <==> Present(m.store, RATE_KEY) || a.Key() == RATE_KEY)
              && (PresentType(st', HIGH_AUTH_FAILURE_RATE) <==>
                     PresentType(m.store, HIGH_AUTH_FAILURE_RATE) || a.Key() == RATE_KEY)
    {
      RaiseEffect(m.store, a, input.now, RATE_KEY);
      RaisedTypes(m.store, a, input.now);
    }
    if input.event.BreakerClosed? {
      ClearEffect(m.store, BreakerKey(input.event.target), RATE_KEY);
      ClearedTypes(m.store, BreakerKey(input.event.target));
    }
    hide SaveSpec, ClearKey, Present, AlarmStore.Inv, RateExceeded, PresentType;
  }

  lemma RaisedTypes(st: Store, a: Alarm, now: int)
    requires AlarmStore.Inv(st) && a.id !in st.alarms && (a.alarmType == HIGH_AUTH_FAILURE_RATE ==> a.Key() == RATE_KEY)
    ensures PresentType(SaveSpec(st, a, now).0, HIGH_AUTH_FAILURE_RATE)
            <==> PresentType(st, HIGH_AUTH_FAILURE_RATE) || a.Key() == RATE_KEY
  {
    var st', id := SaveSpec(st, a, now).0, SaveSpec(st, a, now).1;
    assert id in st'.alarms && st'.alarms[id].Key() == a.Key() by { SaveKeepsInvIff(st, a, now); }
    if PresentType(st, HIGH_AUTH_FAILURE_RATE) && a.Key() != RATE_KEY {
      var old_ :| old_ in st.alarms && st.alarms[old_].alarmType == HIGH_AUTH_FAILURE_RATE;
      assert old_ in st'.alarms && st'.alarms[old_].alarmType == HIGH_AUTH_FAILURE_RATE;
    }
  }

  lemma ClearedTypes(st: Store, key: DedupKey)
    requires key.alarmType != HIGH_AUTH_FAILURE_RATE
    ensures PresentType(ClearKey(st, key), HIGH_AUTH_FAILURE_RATE) <==> PresentType(st, HIGH_AUTH_FAILURE_RATE)
  {
    if PresentType(st, HIGH_AUTH_FAILURE_RATE) {
      var id :| id in st.alarms && st.alarms[id].alarmType == HIGH_AUTH_FAILURE_RATE;
      assert id in ClearKey(st, key).alarms;
    }
  }

  lemma {:induction false} RateRun(c: Config, inputs: seq<Input>)
    requires FreshIDs(inputs)
    ensures var st := Run(c, inputs).store;
            && (PresentType(st, HIGH_AUTH_FAILURE_RATE) <==> Present(st, RATE_KEY))
            && (Present(st, RATE_KEY) <==> EverExceeded(c, inputs))
  {
    if inputs != [] {
      var before := inputs[..|inputs| - 1];
      IssuedLast(inputs);
      StoreRun(c, before);
      RateRun(c, before);
      RateStep(c, Run(c, before), inputs[|inputs| - 1]);
      CountersCountEvents(c, inputs);
      hide AlarmStore.Inv, Evaluated, Present, PresentType, RateExceeded;
    }
  }

  /** The `n`-th event is a failed authentication that takes the rate above the threshold, counted since the last
      reset before it. */
  predicate ExceedsAt(c: Config, inputs: seq<Input>, n: nat)
    requires 1 <= n <= |inputs|
  {
    inputs[n - 1].event.AuthFailure? && c.rate(Failures(inputs[..n]), Total(inputs[..n])) > c.threshold
  }

  lemma {:induction false} EverExceededMeans(c: Config, inputs: seq<Input>)
    ensures EverExceeded(c, inputs) <==> exists n | 1 <= n <= |inputs| :: ExceedsAt(c, inputs, n)
  {
    if inputs != [] {
      var last := |inputs|;
      var before := inputs[..last - 1];
      EverExceededMeans(c, before);
      assert inputs[..last] == inputs;
      assert ExceedsAt(c, inputs, last)
        <==> inputs[last - 1].event.AuthFailure? && RateExceeded(c, Total(inputs), Failures(inputs));
      forall n | 1 <= n < last ensures ExceedsAt(c, inputs, n) <==> ExceedsAt(c, before, n) {
        assert before[..n] == inputs[..n];
      }
      hide ExceedsAt, RateExceeded;
      if exists n | 1 <= n <= |before| :: ExceedsAt(c, before, n) {
        var n :| 1 <= n <= |before| && ExceedsAt(c, before, n);
        assert ExceedsAt(c, inputs, n);
      }
    }
  }

  /** The failure-rate alarm is there exactly when some failed authentication took the rate above the
      threshold, counted since the last reset before it. */
  lemma RateAlarmMirrorsHistory(c: Config, inputs: seq<Input>)
    requires FreshIDs(inputs)
    ensures Present(Run(c, inputs).store, RATE_KEY) <==> exists n | 1 <= n <= |inputs| :: ExceedsAt(c, inputs, n)
  {
    RateRun(c, inputs);
    EverExceededMeans(c, inputs);
    hide Run, Present, ExceedsAt, EverExceeded;
  }

  // ---- What has become unreachable ----

  /** The alarm types that no event clears and only one kind of event raises. */
  predicate IsReportType(alarmType: string) {
    alarmType in {AAA_UNREACHABLE, DB_UNREACHABLE, REDIS_UNREACHABLE, NRF_UNREACHABLE}
  }

  /** What an event reports as unreachable: any AAA server by its name, the others under a fixed one. */
  predicate Reports(event: Event, key: DedupKey) {
    || (event == AaaUnreachable(key.backupObject) && key.alarmType == AAA_UNREACHABLE)
    || (event.DbUnreachable? && key == DedupKey(DB_UNREACHABLE, "postgres"))
    || (event.RedisUnreachable? && key == DedupKey(REDIS_UNREACHABLE, "redis"))
    || (event.NrfUnreachable? && key == DedupKey(NRF_UNREACHABLE, "nrf"))
  }

  ghost predicate EverReported(inputs: seq<Input>, key: DedupKey) {
    exists i | 0 <= i < |inputs| :: Reports(inputs[i].event, key)
  }

  lemma ReportStep(c: Config, m: Manager, input: Input, key: DedupKey)
    requires AlarmStore.Inv(m.store) && input.uuid !in m.store.alarms && IsReportType(key.alarmType)
    ensures Present(Evaluated(c, m, input).store, key) <==> Present(m.store, key) || Reports(input.event, key)
  {
    forall a: Alarm | a.id == input.uuid
      ensures var st' := SaveSpec(m.store, a, input.now).0;
              Present(st', key) <==> Present(m.store, key) || a.Key() == key
    {
      RaiseEffect(m.store, a, input.now, key);
    }
    if input.event.BreakerClosed? { ClearEffect(m.store, BreakerKey(input.event.target), key); }
    hide SaveSpec, ClearKey, Present, AlarmStore.Inv, RateExceeded, PresentType;
  }

  lemma {:induction false} ReportRun(c: Config, inputs: seq<Input>, key: DedupKey)
    requires FreshIDs(inputs) && IsReportType(key.alarmType)
    ensures Present(Run(c, inputs).store, key) <==> EverReported(inputs, key)
  {
    if inputs != [] {
      var before := inputs[..|inputs| - 1];
      IssuedLast(inputs);
      StoreRun(c, before);
      ReportRun(c, before, key);
      ReportStep(c, Run(c, before), inputs[|inputs| - 1], key);
      ReportedLast(inputs, key);
      hide AlarmStore.Inv, Evaluated, Present, EverReported, Reports;
    }
  }

  lemma ReportedLast(inputs: seq<Input>, key: DedupKey)
    requires inputs != []
    ensures EverReported(inputs, key)
            <==> EverReported(inputs[..|inputs| - 1], key) || Reports(inputs[|inputs| - 1].event, key)
  {
    hide Reports;
    var before := inputs[..|inputs| - 1];
    assert forall i | 0 <= i < |before| :: before[i] == inputs[i];
    if EverReported(before, key) {
      var i :| 0 <= i < |before| && Reports(before[i].event, key);
      assert Reports(inputs[i].event, key);
    }
  }

  /** After every sequence of events, an AAA server has an unreachable alarm exactly when it was ever reported, and the
      database, Redis and the NRF have theirs, each under its one name and never twice, exactly when they were. */
  lemma UnreachableAlarmsMirrorHistory(c: Config, inputs: seq<Input>, name: string)
    requires FreshIDs(inputs)
    ensures var st := Run(c, inputs).store;
            && (Present(st, DedupKey(AAA_UNREACHABLE, name))
                <==> exists i | 0 <= i < |inputs| :: inputs[i].event == AaaUnreachable(name))
            && (Present(st, DedupKey(DB_UNREACHABLE, name))
                <==> name == "postgres" && exists i | 0 <= i < |inputs| :: inputs[i].event.DbUnreachable?)
            && (Present(st, DedupKey(REDIS_UNREACHABLE, name))
                <==> name == "redis" && exists i | 0 <= i < |inputs| :: inputs[i].event.RedisUnreachable?)
            && (Present(st, DedupKey(NRF_UNREACHABLE, name))
                <==> name == "nrf" && exists i | 0 <= i < |inputs| :: inputs[i].event.NrfUnreachable?)
            && (name != "" ==> forall alarmType :: Unique(st, DedupKey(alarmType, name)))
  {
    ReportRun(c, inputs, DedupKey(AAA_UNREACHABLE, name));
    ReportRun(c, inputs, DedupKey(DB_UNREACHABLE, name));
    ReportRun(c, inputs, DedupKey(REDIS_UNREACHABLE, name));
    ReportRun(c, inputs, DedupKey(NRF_UNREACHABLE, name));
    StoreRun(c, inputs);
    if name != "" { NamedIsUnique(Run(c, inputs).store, name); }
    ReportsByName(inputs, name);
    hide Run, Present, AlarmStore.Inv, Unique, EverReported;
  }

  /** The reports by name, spelt out. */
  lemma ReportsByName(inputs: seq<Input>, name: string)
    ensures EverReported(inputs, DedupKey(AAA_UNREACHABLE, name))
            <==> exists i | 0 <= i < |inputs| :: inputs[i].event == AaaUnreachable(name)
    ensures EverReported(inputs, DedupKey(DB_UNREACHABLE, name))
            <==> name == "postgres" && exists i | 0 <= i < |inputs| :: inputs[i].event.DbUnreachable?
    ensures EverReported(inputs, DedupKey(REDIS_UNREACHABLE, name))
            <==> name == "redis" && exists i | 0 <= i < |inputs| :: inputs[i].event.RedisUnreachable?
    ensures EverReported(inputs, DedupKey(NRF_UNREACHABLE, name))
            <==> name == "nrf" && exists i | 0 <= i < |inputs| :: inputs[i].event.NrfUnreachable?
  {
  }

  lemma NamedIsUnique(st: Store, name: string)
    requires AlarmStore.Inv(st) && name != ""
    ensures forall alarmType :: Unique(st, DedupKey(alarmType, name))
  {
  }

  // ---- What the stored alarms say ----

  /** The type, object and severity of the alarm that an event raises, if it raises one. */
  predicate RaisedBy(event: Event, alarmType: string, obj: string, severity: string) {
    match event
    case AuthFailure => (alarmType, obj, severity) == (HIGH_AUTH_FAILURE_RATE, "global", "MAJOR")
    case BreakerOpened(t) => (alarmType, obj, severity) == (CIRCUIT_BREAKER_OPEN, t, "MAJOR")
    case AaaUnreachable(t) => (alarmType, obj, severity) == (AAA_UNREACHABLE, t, "CRITICAL")
    case DbUnreachable(_) => (alarmType, obj, severity) == (DB_UNREACHABLE, "postgres", "CRITICAL")
    case RedisUnreachable(_) => (alarmType, obj, severity) == (REDIS_UNREACHABLE, "redis", "MAJOR")
    case NrfUnreachable(_) => (alarmType, obj, severity) == (NRF_UNREACHABLE, "nrf", "MAJOR")
    case AuthSuccess => false
    case BreakerClosed(_) => false
    case MetricsReset => false
    case Unknown => false
  }

  /** The alarm is what the input raises: its ID and time, not acknowledged, and what the event calls for. */
  predicate CameFrom(a: Alarm, input: Input) {
    && a.id == input.uuid && a.eventTime == Some(input.now) && !a.acked && a.ackedBy == "" && a.ackedAt == None
    && RaisedBy(input.event, a.alarmType, a.backupObject, a.severity)
    && (!input.event.AuthFailure? ==> a.problem == input.event.target)
  }

  lemma OriginStep(c: Config, m: Manager, input: Input, id: string)
    requires id in Evaluated(c, m, input).store.alarms
    ensures var a := Evaluated(c, m, input).store.alarms[id];
            (id in m.store.alarms && m.store.alarms[id] == a) || CameFrom(a, input)
  {
    RaiseOrigins(m.store, input, id);
    if input.event.BreakerClosed? { ClearOrigin(m.store, BreakerKey(input.event.target), id); }
    hide RateExceeded, Present, PresentType, SaveSpec, ClearKey;
  }

  lemma RaiseOrigins(st: Store, input: Input, id: string)
    ensures forall a: Alarm | a.eventTime == Some(input.now) && id in SaveSpec(st, a, input.now).0.alarms ::
              var x := SaveSpec(st, a, input.now).0.alarms[id]; (id in st.alarms && st.alarms[id] == x) || x == a
  {
    forall a: Alarm | a.eventTime == Some(input.now) && id in SaveSpec(st, a, input.now).0.alarms
      ensures var x := SaveSpec(st, a, input.now).0.alarms[id]; (id in st.alarms && st.alarms[id] == x) || x == a
    {
      SaveOrigin(st, a, input.now, id);
    }
  }

  lemma SaveOrigin(st: Store, a: Alarm, now: int, id: string)
    requires a.eventTime.Some? && id in SaveSpec(st, a, now).0.alarms
    ensures var x := SaveSpec(st, a, now).0.alarms[id]; (id in st.alarms && st.alarms[id] == x) || x == a
  {
  }

  lemma ClearOrigin(st: Store, key: DedupKey, id: string)
    ensures id in ClearKey(st, key).alarms ==> id in st.alarms && ClearKey(st, key).alarms[id] == st.alarms[id]
  {
  }

  /** After every sequence of events, every stored alarm was raised by one of them: it has that event's ID and time, and
      the type, object and severity that go with it. */
  lemma {:induction false} AlarmsComeFromEvents(c: Config, inputs: seq<Input>, id: string)
    requires id in Run(c, inputs).store.alarms
    ensures exists i | 0 <= i < |inputs| :: CameFrom(Run(c, inputs).store.alarms[id], inputs[i])
  {
    if inputs != [] {
      var n := |inputs| - 1;
      var before := inputs[..n];
      OriginStep(c, Run(c, before), inputs[n], id);
      hide CameFrom, Evaluated;
      if !CameFrom(Run(c, inputs).store.alarms[id], inputs[n]) {
        AlarmsComeFromEvents(c, before, id);
        var i :| 0 <= i < |before| && CameFrom(Run(c, before).store.alarms[id], before[i]);
        assert before[i] == inputs[i];
      }
    }
  }

  // ---- Clearing one alarm at a time ----

  function ClearListed(st: Store, list: seq<Alarm>, key: DedupKey): Store {
    if list == [] then st
    else
      var before, last := ClearListed(st, list[..|list| - 1], key), list[|list| - 1];
      if last.Key() == key then ClearSpec(before, last.id) else before
  }

  ghost predicate Listed(list: seq<Alarm>, id: string, key: DedupKey) { exists a | a in list :: a.id == id && a.Key() == key }

  lemma ListedAppend(list: seq<Alarm>, a: Alarm, id: string, key: DedupKey)
    ensures Listed(list + [a], id, key) <==> Listed(list, id, key) || (a.id == id && a.Key() == key)
  {
    if a.id == id && a.Key() == key { assert a in list + [a]; }
    if Listed(list, id, key) {
      var x :| x in list && x.id == id && x.Key() == key;
      assert x in list + [a];
    }
  }

  /** All listed alarms of the key are gone from `st`, and the entry with them if there were any. */
  ghost predicate ClearedTo(st: Store, st': Store, list: seq<Alarm>, key: DedupKey) {
    && (forall id :: id in st'.alarms <==> id in st.alarms && !Listed(list, id, key))
    && (forall id | id in st'.alarms :: st'.alarms[id] == st.alarms[id])
    && st'.dedup == if exists a | a in list :: a.Key() == key then st.dedup - {key} else st.dedup
  }

  lemma ClearsOneMore(st: Store, st': Store, before: seq<Alarm>, last: Alarm, key: DedupKey)
    requires ClearedTo(st, st', before, key) && last.Key() == key && last.id in st.alarms && st.alarms[last.id] == last
    ensures ClearedTo(st, ClearSpec(st', last.id), before + [last], key)
  {
    forall id ensures Listed(before + [last], id, key) <==> Listed(before, id, key) || last.id == id {
      ListedAppend(before, last, id, key);
    }
    assert last in before + [last];
    if last.id !in st'.alarms { assert Listed(before, last.id, key); }
    hide Listed;
  }

  lemma ClearsNoMore(st: Store, st': Store, before: seq<Alarm>, last: Alarm, key: DedupKey)
    requires ClearedTo(st, st', before, key) && last.Key() != key
    ensures ClearedTo(st, st', before + [last], key)
  {
    forall id ensures Listed(before + [last], id, key) <==> Listed(before, id, key) {
      ListedAppend(before, last, id, key);
    }
    hide Listed;
    if exists a | a in before :: a.Key() == key {
      var a :| a in before && a.Key() == key;
      assert a in before + [last];
    }
  }

  lemma {:induction false} ClearListedEffect(st: Store, list: seq<Alarm>, key: DedupKey)
    requires forall a | a in list :: a.id in st.alarms && st.alarms[a.id] == a
    ensures ClearedTo(st, ClearListed(st, list, key), list, key)
  {
    if list != [] {
      var before, last := list[..|list| - 1], list[|list| - 1];
      assert list == before + [last] && last in list;
      ClearListedEffect(st, before, key);
      if last.Key() == key {
        ClearsOneMore(st, ClearListed(st, before, key), before, last, key);
      } else {
        ClearsNoMore(st, ClearListed(st, before, key), before, last, key);
      }
      hide ClearedTo;
    }
  }

  lemma ClearListedIsClearKey(st: Store, list: seq<Alarm>, key: DedupKey)
    requires Filed(st)
    requires forall a | a in list :: a.id in st.alarms && st.alarms[a.id] == a
    requires forall id | id in st.alarms :: st.alarms[id] in list
    ensures ClearListed(st, list, key) == ClearKey(st, key)
  {
    ClearListedEffect(st, list, key);
    forall id | id in st.alarms ensures Listed(list, id, key) <==> At(st, id, key) {
      assert st.alarms[id] in list;
    }
    if Present(st, key) {
      var id :| id in st.alarms && At(st, id, key);
      assert st.alarms[id] in list && st.alarms[id].Key() == key;
    }
    assert ClearListed(st, list, key).alarms == ClearKey(st, key).alarms;
  }

  // ---- The manager as it runs ----

  class EventManager {
    const store: Alarms
    const config: Config
    var cbState: map<string, bool>
    var authTotal: nat
    var authFailures: nat

    ghost function View(): Manager
      reads this, store
    {
      Manager(store.View(), cbState, authTotal, authFailures)
    }

    /** A store of its own unless one is given, and a threshold of ten percent unless one is. */
    constructor (given: Option<Alarms>, rate: (nat, nat) -> real, threshold: Option<real>)
      ensures given.Some? ==> store == given.value
      ensures given.None? ==> fresh(store) && store.View() == EMPTY
      ensures View() == INIT.(store := store.View())
      ensures config == Config(rate, if threshold.Some? then threshold.value else DEFAULT_THRESHOLD)
    {
      config := Config(rate, if threshold.Some? then threshold.value else DEFAULT_THRESHOLD);
      if given.Some? {
        store := given.value;
      } else {
        store := new Alarms();
      }
      cbState, authTotal, authFailures := map[], 0, 0;
    }

    method RaiseAlarm(alarmType: string, obj: string, problem: string, severity: string, input: Input) returns (id: string)
      modifies store
      ensures store.View() == Raise(old(store.View()), alarmType, obj, problem, severity, input)
      ensures id == SaveSpec(old(store.View()), NewAlarm(alarmType, obj, problem, severity, input), input.now).1
    {
      id := store.Save(NewAlarm(alarmType, obj, problem, severity, input), input.uuid, input.now, input.now);
    }

    /** Clears every listed alarm of the type and object, one by one. */
    method ClearByType(alarmType: string, obj: string)
      requires Filed(store.View())
      modifies store
      ensures store.View() == ClearKey(old(store.View()), DedupKey(alarmType, obj))
    {
      ghost var was, key := store.View(), DedupKey(alarmType, obj);
      var list := store.List();
      for i := 0 to |list|
        invariant store.View() == ClearListed(was, list[..i], key)
      {
        assert list[..i + 1][..i] == list[..i];
        if list[i].alarmType == alarmType && list[i].backupObject == obj {
          var _ := store.Clear(list[i].id);
        }
      }
      assert list[..|list|] == list;
      ClearListedIsClearKey(was, list, key);
    }

    /** Whether a snapshot of the alarms holds one of the type and object. */
    method IsRaised(alarmType: string, obj: string) returns (raised: bool)
      requires Filed(store.View())
      ensures raised <==> Present(store.View(), DedupKey(alarmType, obj))
    {
      var snapshot := store.List();
      for i := 0 to |snapshot|
        invariant forall j | 0 <= j < i :: snapshot[j].Key() != DedupKey(alarmType, obj)
      {
        if snapshot[i].alarmType == alarmType && snapshot[i].backupObject == obj {
          assert At(store.View(), snapshot[i].id, DedupKey(alarmType, obj));
          return true;
        }
      }
      return false;
    }

    /** The same for a type with any object. */
    method IsTypeRaised(alarmType: string) returns (raised: bool)
      requires Filed(store.View())
      ensures raised <==> PresentType(store.View(), alarmType)
    {
      var snapshot := store.List();
      for i := 0 to |snapshot|
        invariant forall j | 0 <= j < i :: snapshot[j].alarmType != alarmType
      {
        if snapshot[i].alarmType == alarmType {
          assert store.alarms[snapshot[i].id].alarmType == alarmType;
          return true;
        }
      }
      return false;
    }

    method Evaluate(input: Input)
      requires Filed(store.View())
      modifies this, store
      ensures View() == Evaluated(config, old(View()), input) && Filed(store.View())
      ensures AlarmStore.Inv(old(store.View())) && input.uuid !in old(store.alarms) ==> AlarmStore.Inv(store.View())
    {
      FiledStep(config, View(), input);
      if AlarmStore.Inv(store.View()) && input.uuid !in store.alarms { StoreStep(config, View(), input); }
      hide AlarmStore.Inv, Filed, Evaluated;
      Dispatch(input);
    }

    /** The switch on the event. */
    method Dispatch(input: Input)
      requires Filed(store.View())
      modifies this, store
      ensures View() == Evaluated(config, old(View()), input)
    {
      hide Raise, ClearKey, Present, PresentType, RateExceeded;
      match input.event
      case AuthSuccess => authTotal := authTotal + 1;
      case AuthFailure => EvaluateFailure(input);
      case BreakerOpened(t) =>
        cbState := cbState[t := true];
        var raised := IsRaised(CIRCUIT_BREAKER_OPEN, t);
        if !raised {
          var _ := RaiseAlarm(CIRCUIT_BREAKER_OPEN, t, t, "MAJOR", input);
        }
      case BreakerClosed(t) =>
        if t in cbState && cbState[t] {
          cbState := cbState[t := false];
          ClearByType(CIRCUIT_BREAKER_OPEN, t);
        }
      case AaaUnreachable(t) => var _ := RaiseAlarm(AAA_UNREACHABLE, t, t, "CRITICAL", input);
      case DbUnreachable(t) => var _ := RaiseAlarm(DB_UNREACHABLE, "postgres", t, "CRITICAL", input);
      case RedisUnreachable(t) => var _ := RaiseAlarm(REDIS_UNREACHABLE, "redis", t, "MAJOR", input);
      case NrfUnreachable(t) => var _ := RaiseAlarm(NRF_UNREACHABLE, "nrf", t, "MAJOR", input);
      case MetricsReset => authTotal, authFailures := 0, 0;
      case Unknown =>
    }

    method EvaluateFailure(input: Input)
      requires Filed(store.View()) && input.event.AuthFailure?
      modifies this, store
      ensures View() == Evaluated(config, old(View()), input)
    {
      authTotal, authFailures := authTotal + 1, authFailures + 1;
      if authTotal > 0 {
        var rate := config.rate(authFailures, authTotal);
        if rate > config.threshold {
          var raised := IsTypeRaised(HIGH_AUTH_FAILURE_RATE);
          if !raised {
            var _ := RaiseAlarm(HIGH_AUTH_FAILURE_RATE, "global", "failure rate", "MAJOR", input);
          }
        }
      }
    }
  }
}
