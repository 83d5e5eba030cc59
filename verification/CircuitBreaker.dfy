/** The circuit breaker and its registry. A run is any sequence of operations, each at a clock reading;
    the registry's double-checked creation is interleaved at the level of its two lock sections. */
module CircuitBreaker {
  import opened Base

  datatype BreakerState = Closed | Open | HalfOpen

  datatype Config = Config(failureThreshold: int, recoveryTimeout: int, successThreshold: int)

  function WithDefaults(c: Config): Config {
    Config(if c.failureThreshold == 0 then 5 else c.failureThreshold,
           if c.recoveryTimeout == 0 then 30_000_000_000 else c.recoveryTimeout,
           if c.successThreshold == 0 then 3 else c.successThreshold)
  }

  datatype Breaker = Breaker(state: BreakerState, failures: int, successes: int, openedAt: int)

  const NEW_BREAKER := Breaker(Closed, 0, 0, 0)

  datatype Op = Allow(now: int) | RecordSuccess(now: int) | RecordFailure(now: int) | Reset(now: int)

  function Next(c: Config, b: Breaker, op: Op): Breaker {
    match op
    case Allow(now) =>
      if b.state == Open && now - b.openedAt >= c.recoveryTimeout then b.(state := HalfOpen, successes := 0) else b
    case RecordSuccess(_) =>
      if b.state == HalfOpen then
        if b.successes + 1 >= c.successThreshold then b.(state := Closed, failures := 0, successes := b.successes + 1)
        else b.(successes := b.successes + 1)
      else if b.state == Closed then b.(failures := 0) else b
    case RecordFailure(now) =>
      if b.state == HalfOpen || (b.state == Closed && b.failures + 1 >= c.failureThreshold)
      then b.(failures := b.failures + 1, state := Open, openedAt := now)
      else b.(failures := b.failures + 1)
    case Reset(_) => b.(state := Closed, failures := 0, successes := 0)
  }

  /** What Allow answers at `now`. */
  predicate Allows(c: Config, b: Breaker, now: int) { b.state != Open || now - b.openedAt >= c.recoveryTimeout }

  ghost predicate StepAt(c: Config, trace: seq<Breaker>, ops: seq<Op>, i: nat)
    requires i + 1 < |trace| && i < |ops|
  {
    trace[i + 1] == Next(c, trace[i], ops[i])
  }

  ghost predicate IsRun(c: Config, trace: seq<Breaker>, ops: seq<Op>) {
    |trace| == |ops| + 1 && trace[0] == NEW_BREAKER && forall i | 0 <= i < |ops| :: StepAt(c, trace, ops, i)
  }

  // ---- Reference counts read off the history ----

  /** The failures since the breaker last closed, succeeded or was reset, as of step `i` of a closed breaker. */
  function FailureStreak(trace: seq<Breaker>, ops: seq<Op>, i: nat): nat
    requires i <= |ops| <= |trace|
  {
    if i == 0 || trace[i - 1].state != Closed then 0
    else
      match ops[i - 1]
      case RecordFailure(_) => FailureStreak(trace, ops, i - 1) + 1
      case Allow(_) => FailureStreak(trace, ops, i - 1)
      case _ => 0
  }

  /** The successes since the probe began, as of step `i` of a half-open breaker. */
  function ProbeSuccesses(trace: seq<Breaker>, ops: seq<Op>, i: nat): nat
    requires i <= |ops| <= |trace|
  {
    if i == 0 || trace[i - 1].state != HalfOpen then 0
    else
      match ops[i - 1]
      case RecordSuccess(_) => ProbeSuccesses(trace, ops, i - 1) + 1
      case Allow(_) => ProbeSuccesses(trace, ops, i - 1)
      case _ => 0
  }

  lemma {:induction false} CountersAgree(c: Config, trace: seq<Breaker>, ops: seq<Op>, i: nat)
    requires IsRun(c, trace, ops) && i <= |ops|
    ensures trace[i].state == Closed ==>
              trace[i].failures == FailureStreak(trace, ops, i) < Max(1, c.failureThreshold)
    ensures trace[i].state == HalfOpen ==>
              trace[i].successes == ProbeSuccesses(trace, ops, i) < Max(1, c.successThreshold)
  {
    if i > 0 {
      CountersAgree(c, trace, ops, i - 1);
      assert StepAt(c, trace, ops, i - 1);
    }
  }

  /** A closed breaker opens exactly at the failure that completes the threshold since it closed, succeeded
      or was reset, and otherwise stays closed. */
  lemma ClosedOpensExactlyAtThreshold(c: Config, trace: seq<Breaker>, ops: seq<Op>, i: nat)
    requires IsRun(c, trace, ops) && i < |ops| && trace[i].state == Closed
    ensures trace[i + 1].state ==
              if ops[i].RecordFailure? && FailureStreak(trace, ops, i) + 1 == Max(1, c.failureThreshold) then Open else Closed
  {
    CountersAgree(c, trace, ops, i);
    assert StepAt(c, trace, ops, i);
  }

  /** A half-open breaker closes exactly at the success that completes the threshold since the probe began (or
      at a reset), reopens at any failure, and otherwise stays half-open. */
  lemma HalfOpenDecides(c: Config, trace: seq<Breaker>, ops: seq<Op>, i: nat)
    requires IsRun(c, trace, ops) && i < |ops| && trace[i].state == HalfOpen
    ensures trace[i + 1].state ==
              if ops[i].RecordFailure? then Open
              else if ops[i].Reset?
                   || (ops[i].RecordSuccess? && ProbeSuccesses(trace, ops, i) + 1 == Max(1, c.successThreshold)) then Closed
              else HalfOpen
  {
    CountersAgree(c, trace, ops, i);
    assert StepAt(c, trace, ops, i);
  }

  // ---- The recovery time ----

  ghost predicate Opens(trace: seq<Breaker>, i: nat)
    requires i + 1 < |trace|
  {
    trace[i].state != Open && trace[i + 1].state == Open
  }

  ghost predicate NonDecreasing(ops: seq<Op>) {
    forall i, j | 0 <= i <= j < |ops| :: ops[i].now <= ops[j].now
  }

  lemma {:induction false} ShutSince(c: Config, trace: seq<Breaker>, ops: seq<Op>, i: nat, k: nat)
    requires IsRun(c, trace, ops) && NonDecreasing(ops) && i < k <= |ops| && Opens(trace, i)
    requires forall j | i < j < k :: !ops[j].Reset?
    ensures (trace[k].state == Open && trace[k].openedAt >= ops[i].now)
            || ops[k - 1].now >= ops[i].now + c.recoveryTimeout
  {
    assert StepAt(c, trace, ops, k - 1);
    if k > i + 1 {
      ShutSince(c, trace, ops, i, k - 1);
    }
  }

  /** From the moment it opens, a breaker that is not reset lets nothing through before the recovery time is
      over, however often it is asked or told of results in between. */
  lemma NothingAllowedBeforeRecovery(c: Config, trace: seq<Breaker>, ops: seq<Op>, i: nat, j: nat)
    requires IsRun(c, trace, ops) && NonDecreasing(ops) && i < j < |ops| && Opens(trace, i)
    requires forall k | i < k < j :: !ops[k].Reset?
    requires Allows(c, trace[j], ops[j].now)
    ensures ops[j].now >= ops[i].now + c.recoveryTimeout
  {
    ShutSince(c, trace, ops, i, j);
  }

  /** An open breaker remembers when it opened: asked after the recovery time it does let a probe through,
      unless it was closed in between. */
  lemma {:induction false} OpenSinceLastOpening(c: Config, trace: seq<Breaker>, ops: seq<Op>, i: nat, j: nat)
    requires IsRun(c, trace, ops) && i < j <= |ops| && Opens(trace, i)
    requires forall k | i < k <= j :: trace[k].state == Open
    ensures trace[j].openedAt == ops[i].now
    ensures forall now :: Allows(c, trace[j], now) <==> now >= ops[i].now + c.recoveryTimeout
  {
    assert StepAt(c, trace, ops, j - 1);
    if j > i + 1 {
      OpenSinceLastOpening(c, trace, ops, i, j - 1);
    }
  }

  /** What a step does to a breaker that has been open since step `o`: a reset closes it, an Allow after the recovery
      time makes it half-open, and nothing else moves it. */
  lemma OpenDecides(c: Config, trace: seq<Breaker>, ops: seq<Op>, o: nat, i: nat)
    requires IsRun(c, trace, ops) && o < i < |ops| && Opens(trace, o)
    requires forall k | o < k <= i :: trace[k].state == Open
    ensures trace[i + 1].state ==
              if ops[i].Reset? then Closed
              else if ops[i].Allow? && ops[i].now >= ops[o].now + c.recoveryTimeout then HalfOpen
              else Open
  {
    OpenSinceLastOpening(c, trace, ops, o, i);
    assert StepAt(c, trace, ops, i);
  }

  /** What the operations from `i` up to `k` make of a new breaker. */
  function Afresh(c: Config, ops: seq<Op>, i: nat, k: nat): Breaker
    requires i <= k <= |ops|
  {
    if i == k then NEW_BREAKER else Next(c, Afresh(c, ops, i, k - 1), ops[k - 1])
  }

  /** After a reset nothing of the history counts: the breaker goes on as a new one does, whatever comes. Only when it
      last opened may differ, as long as it is not open. */
  lemma {:induction false} ResetForgets(c: Config, trace: seq<Breaker>, ops: seq<Op>, i: nat, k: nat)
    requires IsRun(c, trace, ops) && i < k <= |ops| && ops[i].Reset?
    ensures var b := Afresh(c, ops, i + 1, k);
            trace[k] == b.(openedAt := trace[k].openedAt) && (trace[k].state == Open ==> trace[k] == b)
  {
    assert StepAt(c, trace, ops, k - 1);
    if k > i + 1 { ResetForgets(c, trace, ops, i, k - 1); }
  }

  /** Settings that are left at zero stand for five failures, thirty seconds and three successes. */
  lemma DefaultSettings(c: Config)
    ensures WithDefaults(Config(0, 0, 0)) == Config(5, 30_000_000_000, 3)
    ensures c.failureThreshold != 0 ==> WithDefaults(c).failureThreshold == c.failureThreshold
    ensures c.recoveryTimeout != 0 ==> WithDefaults(c).recoveryTimeout == c.recoveryTimeout
    ensures c.successThreshold != 0 ==> WithDefaults(c).successThreshold == c.successThreshold
    ensures WithDefaults(WithDefaults(c)) == WithDefaults(c)
  {
  }

  /** Allow answers yes exactly when it leaves the breaker other than open; a closed or half-open one always does. */
  lemma AllowAnswers(c: Config, trace: seq<Breaker>, ops: seq<Op>, i: nat)
    requires IsRun(c, trace, ops) && i < |ops| && ops[i].Allow?
    ensures Allows(c, trace[i], ops[i].now) <==> trace[i + 1].state != Open
    ensures trace[i].state != Open ==> Allows(c, trace[i], ops[i].now) && trace[i + 1].state == trace[i].state
  {
    assert StepAt(c, trace, ops, i);
  }

  /** The successes recorded by the operations from `i` up to `k`. */
  function SuccessesIn(ops: seq<Op>, i: nat, k: nat): nat
    requires i <= k <= |ops|
  {
    if i == k then 0 else SuccessesIn(ops, i, k - 1) + if ops[k - 1].RecordSuccess? then 1 else 0
  }

  /** The probe: from the Allow at step `i` that finds the recovery time over, as long as no failure and no reset
      comes, the breaker is half-open until the successes recorded since reach the threshold and closed from
      then on. */
  lemma {:induction false} ProbeClosesExactlyAtThreshold(c: Config, trace: seq<Breaker>, ops: seq<Op>, i: nat, k: nat)
    requires IsRun(c, trace, ops) && i < k <= |ops| && trace[i].state == Open && trace[i + 1].state == HalfOpen
    requires forall j | i < j < k :: !ops[j].RecordFailure? && !ops[j].Reset?
    ensures trace[k].state == if SuccessesIn(ops, i + 1, k) < Max(1, c.successThreshold) then HalfOpen else Closed
    ensures trace[k].successes == Min(SuccessesIn(ops, i + 1, k), Max(1, c.successThreshold))
  {
    assert StepAt(c, trace, ops, k - 1);
    if k > i + 1 {
      ProbeClosesExactlyAtThreshold(c, trace, ops, i, k - 1);
    }
  }

  /** The failures recorded by the operations from `i` up to `k`. */
  function FailuresIn(ops: seq<Op>, i: nat, k: nat): nat
    requires i <= k <= |ops|
  {
    if i == k then 0 else FailuresIn(ops, i, k - 1) + if ops[k - 1].RecordFailure? then 1 else 0
  }

  /** A breaker that is new, or has been closed by a success or a reset at step `i - 1`, is closed until the failures
      recorded since reach the threshold, as long as no success and no reset comes; it is then open. */
  lemma {:induction false} FailuresOpenExactlyAtThreshold(c: Config, trace: seq<Breaker>, ops: seq<Op>, i: nat, k: nat)
    requires IsRun(c, trace, ops) && i <= k <= |ops| && trace[i].state == Closed
    requires i == 0 || ops[i - 1].RecordSuccess? || ops[i - 1].Reset?
    requires forall j | i <= j < k :: !ops[j].RecordSuccess? && !ops[j].Reset?
    requires FailuresIn(ops, i, k) <= Max(1, c.failureThreshold)
    requires k > i ==> ops[k - 1].RecordFailure? || FailuresIn(ops, i, k) < Max(1, c.failureThreshold)
    ensures trace[k].state == if FailuresIn(ops, i, k) < Max(1, c.failureThreshold) then Closed else Open
    ensures trace[k].failures == FailuresIn(ops, i, k)
  {
    if i > 0 { assert StepAt(c, trace, ops, i - 1); }
    if k > i {
      assert StepAt(c, trace, ops, k - 1);
      FailuresOpenExactlyAtThreshold(c, trace, ops, i, k - 1);
    }
  }

  // ---- The registry under any number of goroutines ----

  datatype Progress = Started | Missed | Got(breaker: nat)

  datatype Caller = Caller(key: string, progress: Progress)

  /** Breakers are numbered in order of creation and `keys` says what each was created for. */
  datatype RegistryState = RegistryState(breakers: map<string, nat>, keys: seq<string>, callers: seq<Caller>)

  datatype GetStep = Call(key: string) | ReadLocked(caller: nat) | WriteLocked(caller: nat)

  predicate GetEnabled(st: RegistryState, step: GetStep) {
    match step
    case Call(_) => true
    case ReadLocked(i) => i < |st.callers| && st.callers[i].progress.Started?
    case WriteLocked(i) => i < |st.callers| && st.callers[i].progress.Missed?
  }

  function GetNext(st: RegistryState, step: GetStep): RegistryState
    requires GetEnabled(st, step)
  {
    match step
    case Call(key) => st.(callers := st.callers + [Caller(key, Started)])
    case ReadLocked(i) =>
      var key := st.callers[i].key;
      st.(callers := st.callers[i := Caller(key, if key in st.breakers then Got(st.breakers[key]) else Missed)])
    case WriteLocked(i) =>
      var key := st.callers[i].key;
      if key in st.breakers then st.(callers := st.callers[i := Caller(key, Got(st.breakers[key]))])
      else
        var id := |st.keys|;
        RegistryState(st.breakers[key := id], st.keys + [key], st.callers[i := Caller(key, Got(id))])
  }

  ghost predicate RegistryInv(st: RegistryState) {
    && (forall key | key in st.breakers :: st.breakers[key] < |st.keys| && st.keys[st.breakers[key]] == key)
    && (forall id | 0 <= id < |st.keys| :: st.keys[id] in st.breakers && st.breakers[st.keys[id]] == id)
    && (forall i | 0 <= i < |st.callers| && st.callers[i].progress.Got? ::
          st.callers[i].key in st.breakers && st.breakers[st.callers[i].key] == st.callers[i].progress.breaker)
  }

  function GetRun(steps: seq<GetStep>): Option<RegistryState> {
    if steps == [] then Some(RegistryState(map[], [], []))
    else
      var before := GetRun(steps[..|steps| - 1]);
      if before.Some? && GetEnabled(before.value, steps[|steps| - 1])
      then Some(GetNext(before.value, steps[|steps| - 1])) else None
  }

  lemma {:induction false} RegistryInvRun(steps: seq<GetStep>)
    requires GetRun(steps).Some?
    ensures RegistryInv(GetRun(steps).value)
  {
    if steps != [] {
      RegistryInvRun(steps[..|steps| - 1]);
      GetKeepsInv(GetRun(steps[..|steps| - 1]).value, steps[|steps| - 1]);
    }
  }

  lemma GetKeepsInv(st: RegistryState, step: GetStep)
    requires RegistryInv(st) && GetEnabled(st, step)
    ensures RegistryInv(GetNext(st, step))
  {
  }

  /** Under every interleaving two finished Get calls hold the same breaker exactly when they asked for the
      same key, and no breaker is created but the ones in the map. */
  lemma OneBreakerPerKey(steps: seq<GetStep>, i: nat, j: nat)
    requires GetRun(steps).Some? && i < |GetRun(steps).value.callers| && j < |GetRun(steps).value.callers|
    requires GetRun(steps).value.callers[i].progress.Got? && GetRun(steps).value.callers[j].progress.Got?
    ensures var st := GetRun(steps).value;
            && (st.callers[i].progress.breaker == st.callers[j].progress.breaker <==> st.callers[i].key == st.callers[j].key)
            && forall id | 0 <= id < |st.keys| :: id in st.breakers.Values
  {
    RegistryInvRun(steps);
    var st := GetRun(steps).value;
    forall id | 0 <= id < |st.keys| ensures id in st.breakers.Values {
      assert st.breakers[st.keys[id]] == id;
    }
  }

  /** A call of Get comes to an end: its read-locked section gives it the breaker that is there or, exactly if there is
      none, sends it on to the write-locked one, and that one always gives it a breaker under its key. */
  lemma GetReturns(steps: seq<GetStep>, key: string)
    requires GetRun(steps).Some?
    ensures var i := |GetRun(steps).value.callers|;
            && GetRun(steps + [Call(key)]).Some?
            && var st := GetRun(steps + [Call(key)]).value;
               && i < |st.callers| && st.callers[i].key == key && GetEnabled(st, ReadLocked(i))
               && var read := GetNext(st, ReadLocked(i));
                  if key in st.breakers then read.callers[i].progress == Got(st.breakers[key])
                  else
                    && GetEnabled(read, WriteLocked(i))
                    && var done := GetNext(read, WriteLocked(i));
                       key in done.breakers && done.callers[i].progress == Got(done.breakers[key])
  {
    assert (steps + [Call(key)])[..|steps|] == steps;
  }

  /** The write-locked section of a call that has missed ends it with whatever is under its key by then. */
  lemma WriteLockedReturns(st: RegistryState, i: nat)
    requires GetEnabled(st, WriteLocked(i))
    ensures var st', key := GetNext(st, WriteLocked(i)), st.callers[i].key;
            && key in st'.breakers && st'.callers[i] == Caller(key, Got(st'.breakers[key]))
            && (key in st.breakers ==> st'.breakers == st.breakers)
  {
  }

  // ---- The breaker and the registry as they run ----

  class Circuit {
    const config: Config
    var state: BreakerState
    var failures: int
    var successes: int
    var openedAt: int

    ghost function View(): Breaker
      reads this
    {
      Breaker(state, failures, successes, openedAt)
    }

    constructor (config: Config)
      ensures View() == NEW_BREAKER && this.config == WithDefaults(config)
    {
      this.config := WithDefaults(config);
      state, failures, successes, openedAt := Closed, 0, 0, 0;
    }

    method Allow(now: int) returns (ok: bool)
      modifies this
      ensures View() == Next(config, old(View()), Op.Allow(now)) && ok == Allows(config, old(View()), now)
    {
      match state
      case Closed => return true;
      case Open =>
        if now - openedAt >= config.recoveryTimeout {
          state, successes := HalfOpen, 0;
          return true;
        }
        return false;
      case HalfOpen => return true;
    }

    method RecordSuccess(now: int)
      modifies this
      ensures View() == Next(config, old(View()), Op.RecordSuccess(now))
    {
      if state == HalfOpen {
        successes := successes + 1;
        if successes >= config.successThreshold {
          state, failures := Closed, 0;
        }
      } else if state == Closed {
        failures := 0;
      }
    }

    method RecordFailure(now: int)
      modifies this
      ensures View() == Next(config, old(View()), Op.RecordFailure(now))
    {
      failures := failures + 1;
      if state == Closed {
        if failures >= config.failureThreshold {
          state, openedAt := Open, now;
        }
      } else if state == HalfOpen {
        state, openedAt := Open, now;
      }
    }

    method Reset(now: int)
      modifies this
      ensures View() == Next(config, old(View()), Op.Reset(now))
    {
      state, failures, successes := Closed, 0, 0;
    }
  }

  class Registry {
    var breakers: map<string, Circuit>
    const defaults: Config

    constructor (defaults: Config)
      ensures breakers == map[] && this.defaults == WithDefaults(defaults)
    {
      breakers, this.defaults := map[], WithDefaults(defaults);
    }

    /** The section under the write lock, which looks again before it creates. */
    method GetOrCreate(key: string) returns (cb: Circuit)
      modifies this
      ensures key in old(breakers) ==> cb == old(breakers)[key] && breakers == old(breakers)
      ensures key !in old(breakers) ==>
                && fresh(cb) && cb.View() == NEW_BREAKER && cb.config == WithDefaults(defaults)
                && breakers == old(breakers)[key := cb]
    {
      if key in breakers {
        return breakers[key];
      }
      cb := new Circuit(defaults);
      breakers := breakers[key := cb];
    }

    /** A look under the read lock, then, if need be, the section above. */
    method Get(key: string) returns (cb: Circuit)
      modifies this
      ensures key in breakers && cb == breakers[key]
      ensures breakers == old(breakers)[key := cb] && (key in old(breakers) ==> cb == old(breakers)[key])
    {
      if key in breakers {
        return breakers[key];
      }
      cb := GetOrCreate(key);
    }
  }
}
