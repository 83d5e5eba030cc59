/** The registry of server-initiated requests: callers register a one-slot channel under
    "session:type", a Biz Pod reply completes it, and a waiter leaves with the reply or on its timer.
    Every mutex-protected section, channel operation and timer choice is one atomic step, so a run
    is any interleaving of any number of goroutines. Timers may fire at any moment. */
module ServerInitiated {
  import opened Base
  import Keys

  datatype Response = Response(authCtxID: string, resultCode: nat, payload: bytes, errorCause: string)

  const RESULT_UNABLE_TO_DELIVER := 3002
  const TIMEOUT_RESPONSE := Response("", RESULT_UNABLE_TO_DELIVER, [], "timeout")
  const DUPLICATE_RESPONSE := Response("", RESULT_UNABLE_TO_DELIVER, [], "duplicate")

  /** Who put a response into a channel. */
  datatype Origin = FromComplete(sessionID: string, messageType: string) | FromDuplicate

  datatype Sent = Sent(origin: Origin, response: Response)

  datatype Wait = Waiting | TimerFired | Returned(response: Response)

  /** A response channel: its buffer slot, the progress of its Wait call, and the ledger of everything
      ever put into it. */
  datatype Channel = Channel(sessionID: string, authCtxID: string, messageType: string,
                             slot: Option<Response>, wait: Wait, sent: seq<Sent>)
  {
    function Key(): string { RegistryKey(sessionID, messageType) }
  }

  function RegistryKey(sessionID: string, messageType: string): string {
    Keys.Join(sessionID, messageType)
  }

  /** Channels are numbered in order of creation; `replying` holds those whose duplicate-reply
      goroutine has not run yet. */
  datatype State = State(pending: map<string, nat>, channels: seq<Channel>, replying: set<nat>)

  const INIT := State(map[], [], {})

  datatype Step =
    | Register(sessionID: string, authCtxID: string, messageType: string)
    | Complete(sessionID: string, messageType: string, response: Response)
    | Expire(sessionID: string, messageType: string)
    | DuplicateReply(ch: nat)
    | Receive(ch: nat)
    | FireTimer(ch: nat)
    | FinishTimeout(ch: nat)

  /** A step that the scheduler can take: sends wait for a free slot, receives for a full one. */
  predicate Enabled(st: State, step: Step) {
    match step
    case DuplicateReply(ch) => ch in st.replying && ch < |st.channels| && st.channels[ch].slot.None?
    case Receive(ch) => ch < |st.channels| && st.channels[ch].wait.Waiting? && st.channels[ch].slot.Some?
    case FireTimer(ch) => ch < |st.channels| && st.channels[ch].wait.Waiting?
    case FinishTimeout(ch) => ch < |st.channels| && st.channels[ch].wait.TimerFired?
    case _ => true
  }

  function Put(ch: Channel, origin: Origin, response: Response): Channel {
    ch.(slot := Some(response), sent := ch.sent + [Sent(origin, response)])
  }

  function Next(st: State, step: Step): State
    requires Enabled(st, step)
  {
    match step
    case Register(s, a, m) =>
      var key, ch := RegistryKey(s, m), |st.channels|;
      var channels := st.channels + [Channel(s, a, m, None, Waiting, [])];
      if key in st.pending then State(st.pending - {key}, channels, st.replying + {ch})
      else State(st.pending[key := ch], channels, st.replying)
    case Complete(s, m, r) =>
      var key := RegistryKey(s, m);
      if key !in st.pending then st
      else
        var ch := st.pending[key];
        var channels :=
          if ch < |st.channels| && st.channels[ch].slot.None?
          then st.channels[ch := Put(st.channels[ch], FromComplete(s, m), r)] else st.channels;
        st.(pending := st.pending - {key}, channels := channels)
    case Expire(s, m) => st.(pending := st.pending - {RegistryKey(s, m)})
    case DuplicateReply(ch) =>
      st.(channels := st.channels[ch := Put(st.channels[ch], FromDuplicate, DUPLICATE_RESPONSE)],
          replying := st.replying - {ch})
    case Receive(ch) =>
      var c := st.channels[ch];
      st.(channels := st.channels[ch := c.(slot := None, wait := Returned(c.slot.value))])
    case FireTimer(ch) => st.(channels := st.channels[ch := st.channels[ch].(wait := TimerFired)])
    case FinishTimeout(ch) =>
      var c := st.channels[ch];
      State(st.pending - {c.Key()}, st.channels[ch := c.(wait := Returned(TIMEOUT_RESPONSE))], st.replying)
  }

  ghost predicate StepAt(trace: seq<State>, steps: seq<Step>, i: nat)
    requires i + 1 < |trace| && i < |steps|
  {
    Enabled(trace[i], steps[i]) && trace[i + 1] == Next(trace[i], steps[i])
  }

  /** `trace` holds the states that `steps` goes through, starting from the empty registry. */
  ghost predicate IsRun(trace: seq<State>, steps: seq<Step>) {
    |trace| == |steps| + 1 && trace[0] == INIT && forall i | 0 <= i < |steps| :: StepAt(trace, steps, i)
  }

  // ---- What every step keeps ----

  ghost predicate EntryOk(st: State, key: string)
    requires key in st.pending
  {
    var ch := st.pending[key];
    && ch < |st.channels| && ch !in st.replying
    && st.channels[ch].Key() == key
    && st.channels[ch].sent == []
    && !st.channels[ch].wait.Returned?
  }

  ghost predicate ChannelOk(c: Channel) {
    && (c.sent == [] ==> c.slot.None? && (c.wait.Returned? ==> c.wait.response == TIMEOUT_RESPONSE))
    && |c.sent| <= 1
    && (c.slot.Some? ==> !(c.wait.Returned? && c.wait.response != TIMEOUT_RESPONSE))
    && (|c.sent| == 1 ==>
          && (c.slot.Some? ==> c.slot.value == c.sent[0].response)
          && (c.wait.Returned? ==> c.wait.response in {TIMEOUT_RESPONSE, c.sent[0].response})
          && (c.sent[0].origin.FromDuplicate? ==> c.sent[0].response == DUPLICATE_RESPONSE)
          && (c.sent[0].origin.FromComplete? ==>
                RegistryKey(c.sent[0].origin.sessionID, c.sent[0].origin.messageType) == c.Key()))
  }

  ghost predicate Inv(st: State) {
    && (forall key | key in st.pending :: EntryOk(st, key))
    && (forall ch | ch in st.replying :: ch < |st.channels| && st.channels[ch].sent == [])
    && (forall ch | 0 <= ch < |st.channels| :: ChannelOk(st.channels[ch]))
  }

  lemma InvStep(st: State, step: Step)
    requires Inv(st) && Enabled(st, step)
    ensures Inv(Next(st, step))
  {
    var st' := Next(st, step);
    ChannelsStep(st, step);
    RepliesStep(st, step);
    forall key | key in st'.pending ensures EntryOk(st', key) { EntryKept(st, step, key); }
    hide Next, ChannelOk, EntryOk;
  }

  lemma EntryKept(st: State, step: Step, key: string)
    requires Inv(st) && Enabled(st, step) && key in Next(st, step).pending
    ensures EntryOk(Next(st, step), key)
  {
    if step.Receive? { assert ChannelOk(st.channels[step.ch]); }
    hide ChannelOk;
    if key in st.pending { assert EntryOk(st, key); }
    if step.Complete? && RegistryKey(step.sessionID, step.messageType) in st.pending {
      assert EntryOk(st, RegistryKey(step.sessionID, step.messageType));
    }
  }

  lemma RepliesStep(st: State, step: Step)
    requires Inv(st) && Enabled(st, step)
    ensures var st' := Next(st, step);
            forall ch | ch in st'.replying :: ch < |st'.channels| && st'.channels[ch].sent == []
  {
    hide ChannelOk;
    if step.Complete? && RegistryKey(step.sessionID, step.messageType) in st.pending {
      assert EntryOk(st, RegistryKey(step.sessionID, step.messageType));
    }
  }

  lemma ChannelsStep(st: State, step: Step)
    requires Inv(st) && Enabled(st, step)
    ensures forall ch | 0 <= ch < |Next(st, step).channels| :: ChannelOk(Next(st, step).channels[ch])
  {
    if step.Complete? && RegistryKey(step.sessionID, step.messageType) in st.pending {
      assert EntryOk(st, RegistryKey(step.sessionID, step.messageType));
    }
  }

  lemma {:induction false} InvRun(trace: seq<State>, steps: seq<Step>, i: nat)
    requires IsRun(trace, steps) && i < |trace|
    ensures Inv(trace[i])
  {
    if i > 0 {
      InvRun(trace, steps, i - 1);
      assert StepAt(trace, steps, i - 1);
      InvStep(trace[i - 1], steps[i - 1]);
    }
  }

  // ---- Safety of every run ----

  /** In every reachable state each entry sits under the key of its own channel, a channel whose Wait
      has returned is not in the map, and no channel has been sent more than one response. */
  lemma RegistrySafety(trace: seq<State>, steps: seq<Step>, i: nat)
    requires IsRun(trace, steps) && i < |trace|
    ensures forall key | key in trace[i].pending ::
              && trace[i].pending[key] < |trace[i].channels|
              && trace[i].channels[trace[i].pending[key]].Key() == key
              && !trace[i].channels[trace[i].pending[key]].wait.Returned?
    ensures forall ch | 0 <= ch < |trace[i].channels| :: |trace[i].channels[ch].sent| <= 1
  {
    InvRun(trace, steps, i);
    forall key | key in trace[i].pending
      ensures trace[i].pending[key] < |trace[i].channels|
              && trace[i].channels[trace[i].pending[key]].Key() == key
              && !trace[i].channels[trace[i].pending[key]].wait.Returned?
    {
      assert EntryOk(trace[i], key);
    }
  }

  /** No send ever finds a full slot: the duplicate-reply goroutine never blocks, and a Complete that
      finds an entry never takes its default branch. */
  lemma SendsNeverBlock(trace: seq<State>, steps: seq<Step>, i: nat)
    requires IsRun(trace, steps) && i < |trace|
    ensures forall ch | ch in trace[i].replying :: Enabled(trace[i], DuplicateReply(ch))
    ensures forall key | key in trace[i].pending ::
              trace[i].pending[key] < |trace[i].channels| && trace[i].channels[trace[i].pending[key]].slot.None?
  {
    InvRun(trace, steps, i);
    forall key | key in trace[i].pending
      ensures trace[i].pending[key] < |trace[i].channels| && trace[i].channels[trace[i].pending[key]].slot.None?
    {
      assert EntryOk(trace[i], key);
    }
  }

  /** A response put in by Complete(s, m, r) is only ever found in, or returned from, a channel that was
      registered for that same session and message type, provided neither type is the other with a
      colon prefix (no colon-free type is). */
  lemma ResponsesReachTheirOwnRequest(trace: seq<State>, steps: seq<Step>, i: nat, ch: nat)
    requires IsRun(trace, steps) && i < |trace| && ch < |trace[i].channels|
    requires trace[i].channels[ch].sent != [] && trace[i].channels[ch].sent[0].origin.FromComplete?
    requires !Keys.ColonTail(trace[i].channels[ch].messageType, trace[i].channels[ch].sent[0].origin.messageType)
    requires !Keys.ColonTail(trace[i].channels[ch].sent[0].origin.messageType, trace[i].channels[ch].messageType)
    ensures trace[i].channels[ch].sent[0].origin
              == FromComplete(trace[i].channels[ch].sessionID, trace[i].channels[ch].messageType)
  {
    InvRun(trace, steps, i);
    var c := trace[i].channels[ch];
    assert ChannelOk(c);
    Keys.JoinInjective(c.sessionID, c.messageType, c.sent[0].origin.sessionID, c.sent[0].origin.messageType);
  }

  /** The exact rule behind the condition: a response given to Complete(s', m') that sits in the channel of another
      request sits there because the longer type is the shorter one behind a colon and the session IDs make up
      the difference. */
  lemma MisdeliveredOnlyIf(trace: seq<State>, steps: seq<Step>, i: nat, ch: nat)
    requires IsRun(trace, steps) && i < |trace| && ch < |trace[i].channels|
    requires trace[i].channels[ch].sent != [] && trace[i].channels[ch].sent[0].origin.FromComplete?
    ensures var c := trace[i].channels[ch];
            var o := c.sent[0].origin;
            || o == FromComplete(c.sessionID, c.messageType)
            || (exists x :: o.messageType == x + ":" + c.messageType && c.sessionID == o.sessionID + ":" + x)
            || (exists x :: c.messageType == x + ":" + o.messageType && o.sessionID == c.sessionID + ":" + x)
  {
    InvRun(trace, steps, i);
    var c := trace[i].channels[ch];
    var o := c.sent[0].origin;
    assert ChannelOk(c);
    if |c.messageType| < |o.messageType| {
      Keys.JoinEqualIff(c.sessionID, c.messageType, o.sessionID, o.messageType);
    } else if |c.messageType| > |o.messageType| {
      Keys.JoinEqualIff(o.sessionID, o.messageType, c.sessionID, c.messageType);
    } else {
      Keys.JoinEqualLength(c.sessionID, c.messageType, o.sessionID, o.messageType);
    }
  }

  /** And it does happen for every two such types: the response to one request ends up in the channel of another. */
  lemma Misdelivered(m1: string, m2: string, r: Response) returns (s1: string, s2: string, trace: seq<State>)
    requires Keys.ColonTail(m1, m2)
    ensures IsRun(trace, [Register(s1, "", m1), Complete(s2, m2, r)])
    ensures trace[2].channels == [Channel(s1, "", m1, Some(r), Waiting, [Sent(FromComplete(s2, m2), r)])] && m1 != m2
  {
    s1, s2 := Keys.JoinAmbiguous(m1, m2);
    var key, waiting := RegistryKey(s1, m1), Channel(s1, "", m1, None, Waiting, []);
    var t1 := State(map[key := 0], [waiting], {});
    var t2 := State(map[], [Put(waiting, FromComplete(s2, m2), r)], {});
    assert [] + [Sent(FromComplete(s2, m2), r)] == [Sent(FromComplete(s2, m2), r)];
    assert Next(INIT, Register(s1, "", m1)) == t1 && Next(t1, Complete(s2, m2, r)) == t2;
    trace := [INIT, t1, t2];
    var steps := [Register(s1, "", m1), Complete(s2, m2, r)];
    assert StepAt(trace, steps, 0) && StepAt(trace, steps, 1);
  }

  // ---- What Wait returns ----

  /** The timer of a channel has won the select in one of the first `n` steps. */
  ghost predicate TimerWon(steps: seq<Step>, n: nat, ch: nat)
    requires n <= |steps|
  {
    FireTimer(ch) in steps[..n]
  }

  ghost predicate Took(steps: seq<Step>, n: nat, ch: nat)
    requires n <= |steps|
  {
    Receive(ch) in steps[..n]
  }

  ghost predicate WaitOk(c: Channel, timerWon: bool, took: bool) {
    match c.wait
    case Waiting => !timerWon && !took
    case TimerFired => timerWon && !took
    case Returned(r) =>
      && timerWon == !took
      && (timerWon ==> r == TIMEOUT_RESPONSE)
      && (took ==> |c.sent| == 1 && r == c.sent[0].response)
  }

  lemma WaitStep(st: State, step: Step, ch: nat, timerWon: bool, took: bool)
    requires Inv(st) && Enabled(st, step) && ch < |st.channels| && WaitOk(st.channels[ch], timerWon, took)
    ensures ch < |Next(st, step).channels|
    ensures WaitOk(Next(st, step).channels[ch], timerWon || step == FireTimer(ch), took || step == Receive(ch))
    ensures st.channels[ch].sent <= Next(st, step).channels[ch].sent
  {
    assert ChannelOk(st.channels[ch]);
    InvStep(st, step);
    assert ChannelOk(Next(st, step).channels[ch]);
    hide Inv;
  }

  lemma {:induction false} WaitRun(trace: seq<State>, steps: seq<Step>, i: nat, ch: nat)
    requires IsRun(trace, steps) && i < |trace|
    ensures if ch < |trace[i].channels| then WaitOk(trace[i].channels[ch], TimerWon(steps, i, ch), Took(steps, i, ch))
            else !TimerWon(steps, i, ch) && !Took(steps, i, ch)
  {
    if i > 0 {
      WaitRun(trace, steps, i - 1, ch);
      InvRun(trace, steps, i - 1);
      assert StepAt(trace, steps, i - 1);
      assert steps[..i] == steps[..i - 1] + [steps[i - 1]];
      if ch < |trace[i - 1].channels| {
        WaitStep(trace[i - 1], steps[i - 1], ch, TimerWon(steps, i - 1, ch), Took(steps, i - 1, ch));
        hide Next;
      }
      hide Inv, WaitOk;
    }
  }

  /** A Wait that has returned gave the timeout response exactly by its timer, and otherwise exactly the one
      response the channel was sent. */
  lemma WaitReturns(trace: seq<State>, steps: seq<Step>, i: nat, ch: nat)
    requires IsRun(trace, steps) && i < |trace| && ch < |trace[i].channels|
    requires trace[i].channels[ch].wait.Returned?
    ensures var c := trace[i].channels[ch];
            && TimerWon(steps, i, ch) == !Took(steps, i, ch)
            && (TimerWon(steps, i, ch) ==> c.wait.response == TIMEOUT_RESPONSE)
            && (!TimerWon(steps, i, ch) ==> |c.sent| == 1 && c.wait.response == c.sent[0].response)
  {
    WaitRun(trace, steps, i, ch);
  }

  /** What has been sent on a channel stays sent. */
  lemma {:induction false} SentRun(trace: seq<State>, steps: seq<Step>, i: nat, j: nat, ch: nat)
    requires IsRun(trace, steps) && i <= j < |trace| && ch < |trace[i].channels|
    ensures ch < |trace[j].channels| && trace[i].channels[ch].sent <= trace[j].channels[ch].sent
  {
    if i < j {
      SentRun(trace, steps, i, j - 1, ch);
      InvRun(trace, steps, j - 1);
      WaitRun(trace, steps, j - 1, ch);
      assert StepAt(trace, steps, j - 1);
      WaitStep(trace[j - 1], steps[j - 1], ch, TimerWon(steps, j - 1, ch), Took(steps, j - 1, ch));
      hide Inv, WaitOk, Next;
    }
  }

  // ---- Which replies are delivered ----

  /** The step registers, completes or expires something under `key`. */
  predicate Touches(st: State, step: Step, key: string) {
    match step
    case Register(s, _, m) => RegistryKey(s, m) == key
    case Complete(s, m, _) => RegistryKey(s, m) == key
    case Expire(s, m) => RegistryKey(s, m) == key
    case FinishTimeout(ch) => ch < |st.channels| && st.channels[ch].Key() == key
    case _ => false
  }

  ghost predicate Holds(st: State, key: string, ch: nat) { key in st.pending && st.pending[key] == ch }

  lemma HoldsStep(st: State, step: Step, key: string, ch: nat)
    requires Inv(st) && Enabled(st, step) && ch < |st.channels|
    ensures Holds(Next(st, step), key, ch) <==> Holds(st, key, ch) && !Touches(st, step, key)
    ensures ch < |Next(st, step).channels| && Next(st, step).channels[ch].Key() == st.channels[ch].Key()
  {
    if key in st.pending { assert EntryOk(st, key); }
  }

  lemma {:induction false} HoldsRun(trace: seq<State>, steps: seq<Step>, i: nat, j: nat, key: string, ch: nat)
    requires IsRun(trace, steps) && i <= j < |trace| && ch < |trace[i].channels| && Holds(trace[i], key, ch)
    ensures ch < |trace[j].channels|
    ensures Holds(trace[j], key, ch) <==> forall k | i <= k < j :: !Touches(trace[k], steps[k], key)
  {
    if i < j {
      HoldsRun(trace, steps, i, j - 1, key, ch);
      InvRun(trace, steps, j - 1);
      assert StepAt(trace, steps, j - 1);
      HoldsStep(trace[j - 1], steps[j - 1], key, ch);
    }
  }

  /** Step `j` puts a response into channel `ch`. */
  ghost predicate DeliversAt(trace: seq<State>, j: nat, ch: nat, response: Response)
    requires j + 1 < |trace|
  {
    && ch < |trace[j].channels| && ch < |trace[j + 1].channels|
    && trace[j].channels[ch].sent == []
    && trace[j + 1].channels[ch].slot == Some(response)
    && |trace[j + 1].channels[ch].sent| == 1
  }

  /** A Complete for the key of a channel that Register put in the map delivers to that channel if and
      only if nothing under the same key was registered, completed or expired in between. */
  lemma DeliveredIffUndisturbed(trace: seq<State>, steps: seq<Step>, i: nat, j: nat)
    requires IsRun(trace, steps) && i < j < |steps|
    requires steps[i].Register? && steps[j].Complete?
    requires RegistryKey(steps[i].sessionID, steps[i].messageType) !in trace[i].pending
    requires RegistryKey(steps[i].sessionID, steps[i].messageType)
             == RegistryKey(steps[j].sessionID, steps[j].messageType)
    ensures DeliversAt(trace, j, |trace[i].channels|, steps[j].response)
            <==> forall k | i < k < j ::
                   !Touches(trace[k], steps[k], RegistryKey(steps[i].sessionID, steps[i].messageType))
  {
    var key, ch := RegistryKey(steps[i].sessionID, steps[i].messageType), |trace[i].channels|;
    assert StepAt(trace, steps, i) && StepAt(trace, steps, j);
    assert Holds(trace[i + 1], key, ch);
    HoldsRun(trace, steps, i + 1, j, key, ch);
    InvRun(trace, steps, j);
    if key in trace[j].pending { assert EntryOk(trace[j], key); }
  }

  /** The waiter's side. A request is registered at step `i`, completed at step `j`, and its Wait has returned
      before step `n`: then Wait returned the response of step `j` if and only if nothing touched the key between
      `i` and `j` and the waiter's timer never won. */
  lemma WaiterGetsReplyIff(trace: seq<State>, steps: seq<Step>, i: nat, j: nat, n: nat)
    requires IsRun(trace, steps) && i < j < n < |trace|
    requires steps[i].Register? && steps[j].Complete?
    requires RegistryKey(steps[i].sessionID, steps[i].messageType) !in trace[i].pending
    requires RegistryKey(steps[i].sessionID, steps[i].messageType)
             == RegistryKey(steps[j].sessionID, steps[j].messageType)
    requires var ch := |trace[i].channels|; ch < |trace[n].channels| && trace[n].channels[ch].wait.Returned?
    ensures var ch := |trace[i].channels|;
            var undisturbed := forall k | i < k < j ::
                                 !Touches(trace[k], steps[k], RegistryKey(steps[i].sessionID, steps[i].messageType));
            && (DeliversAt(trace, j, ch, steps[j].response) && Took(steps, n, ch)
                <==> undisturbed && !TimerWon(steps, n, ch))
            && (undisturbed && !TimerWon(steps, n, ch) ==> trace[n].channels[ch].wait.response == steps[j].response)
  {
    var ch := |trace[i].channels|;
    DeliveredIffUndisturbed(trace, steps, i, j);
    WaitReturns(trace, steps, n, ch);
    if DeliversAt(trace, j, ch, steps[j].response) {
      SentRun(trace, steps, j + 1, n, ch);
      InvRun(trace, steps, j + 1);
      assert ChannelOk(trace[j + 1].channels[ch]);
      InvRun(trace, steps, n);
      assert ChannelOk(trace[n].channels[ch]);
    }
    hide Touches, Inv, IsRun;
  }

  // ---- Duplicate registrations ----

  /** A channel that is not in the map and is owed the duplicate reply, or has been sent it and nothing else. */
  ghost predicate DuplicateOk(st: State, ch: nat) {
    && ch < |st.channels| && (forall key | key in st.pending :: st.pending[key] != ch)
    && (if ch in st.replying then st.channels[ch].sent == []
        else st.channels[ch].sent == [Sent(FromDuplicate, DUPLICATE_RESPONSE)])
  }

  lemma DuplicateStep(st: State, step: Step, ch: nat)
    requires Inv(st) && Enabled(st, step) && DuplicateOk(st, ch)
    ensures DuplicateOk(Next(st, step), ch)
  {
    hide ChannelOk;
  }

  /** A request registered under a key that is taken: from then on its channel is in no entry, and it either still
      has the duplicate reply coming or has been sent exactly that. */
  lemma {:induction false} DuplicateIsAnswered(trace: seq<State>, steps: seq<Step>, i: nat, j: nat)
    requires IsRun(trace, steps) && i < j < |trace| && steps[i].Register?
    requires RegistryKey(steps[i].sessionID, steps[i].messageType) in trace[i].pending
    ensures DuplicateOk(trace[j], |trace[i].channels|)
  {
    assert StepAt(trace, steps, j - 1);
    InvRun(trace, steps, j - 1);
    if j == i + 1 {
      forall key | key in trace[i].pending ensures trace[i].pending[key] < |trace[i].channels| {
        assert EntryOk(trace[i], key);
      }
    } else {
      DuplicateIsAnswered(trace, steps, i, j - 1);
      DuplicateStep(trace[j - 1], steps[j - 1], |trace[i].channels|);
      hide Next, Inv, DuplicateOk;
    }
  }

  /** So its Wait, once it has returned, gave the duplicate response exactly if its timer never won, and the timeout
      response otherwise. */
  lemma DuplicateWaitReturns(trace: seq<State>, steps: seq<Step>, i: nat, j: nat)
    requires IsRun(trace, steps) && i < j < |trace| && steps[i].Register?
    requires RegistryKey(steps[i].sessionID, steps[i].messageType) in trace[i].pending
    requires var ch := |trace[i].channels|; ch < |trace[j].channels| && trace[j].channels[ch].wait.Returned?
    ensures var ch := |trace[i].channels|;
            trace[j].channels[ch].wait.response
            == if TimerWon(steps, j, ch) then TIMEOUT_RESPONSE else DUPLICATE_RESPONSE
  {
    DuplicateIsAnswered(trace, steps, i, j);
    WaitReturns(trace, steps, j, |trace[i].channels|);
    hide IsRun;
  }

  /** A channel that nobody can reach any more: not in the map, owed nothing, sent nothing. */
  ghost predicate Forgotten(st: State, ch: nat) {
    && ch < |st.channels| && (forall key | key in st.pending :: st.pending[key] != ch)
    && ch !in st.replying && st.channels[ch].sent == []
  }

  lemma ForgottenStep(st: State, step: Step, ch: nat)
    requires Inv(st) && Enabled(st, step) && Forgotten(st, ch)
    ensures Forgotten(Next(st, step), ch)
  {
    hide ChannelOk;
  }

  /** The request that held the key is the one that loses: it is never sent anything, so its Wait can only time
      out. */
  lemma {:induction false} EvictedIsForgotten(trace: seq<State>, steps: seq<Step>, i: nat, j: nat)
    requires IsRun(trace, steps) && i < j < |trace| && steps[i].Register?
    requires RegistryKey(steps[i].sessionID, steps[i].messageType) in trace[i].pending
    ensures Forgotten(trace[j], trace[i].pending[RegistryKey(steps[i].sessionID, steps[i].messageType)])
  {
    var key := RegistryKey(steps[i].sessionID, steps[i].messageType);
    assert StepAt(trace, steps, j - 1);
    InvRun(trace, steps, j - 1);
    if j == i + 1 {
      assert EntryOk(trace[i], key);
      forall k | k in trace[i].pending ensures trace[i].channels[trace[i].pending[key]].Key() == key
                                                && (k != key ==> trace[i].pending[k] != trace[i].pending[key]) {
        assert EntryOk(trace[i], k);
      }
    } else {
      EvictedIsForgotten(trace, steps, i, j - 1);
      ForgottenStep(trace[j - 1], steps[j - 1], trace[i].pending[key]);
      hide Next, Inv, Forgotten;
    }
  }

  /** A channel keeps the request it was registered for. */
  lemma {:induction false} ChannelKeepsRequest(trace: seq<State>, steps: seq<Step>, i: nat, j: nat)
    requires IsRun(trace, steps) && i < j < |trace| && steps[i].Register?
    ensures var ch := |trace[i].channels|;
            && ch < |trace[j].channels|
            && trace[j].channels[ch].sessionID == steps[i].sessionID
            && trace[j].channels[ch].authCtxID == steps[i].authCtxID
            && trace[j].channels[ch].messageType == steps[i].messageType
  {
    assert StepAt(trace, steps, j - 1);
    if j > i + 1 { ChannelKeepsRequest(trace, steps, i, j - 1); }
  }

  /** The schedule in which a stale timer takes away a later registration: the first waiter's timer has
      fired when its reply arrives, a second request is registered, and the first waiter's clean-up then
      expires it by key. */
  function StaleTimerSchedule(s: string, m: string, r0: Response, r1: Response): seq<Step> {
    [Register(s, "", m), FireTimer(0), Complete(s, m, r0), Register(s, "", m), FinishTimeout(0), Complete(s, m, r1)]
  }

  function StaleTimerStates(s: string, m: string, r0: Response): seq<State> {
    var key, waiting := RegistryKey(s, m), Channel(s, "", m, None, Waiting, []);
    var answered, left := Answered(s, m, r0, TimerFired), Answered(s, m, r0, Returned(TIMEOUT_RESPONSE));
    [INIT,
     State(map[key := 0], [waiting], {}),
     State(map[key := 0], [waiting.(wait := TimerFired)], {}),
     State(map[], [answered], {}),
     State(map[key := 1], [answered, waiting], {}),
     State(map[], [left, waiting], {}),
     State(map[], [left, waiting], {})]
  }

  lemma StaleTimerStarts(s: string, m: string, r0: Response, r1: Response)
    ensures var trace, steps := StaleTimerStates(s, m, r0), StaleTimerSchedule(s, m, r0, r1);
            StepAt(trace, steps, 0) && StepAt(trace, steps, 1) && StepAt(trace, steps, 2)
  {
    var t2 := StaleTimerStates(s, m, r0)[2];
    assert Put(t2.channels[0], FromComplete(s, m), r0) == Answered(s, m, r0, TimerFired);
  }

  lemma StaleTimerGoesOn(s: string, m: string, r0: Response, r1: Response)
    ensures var trace, steps := StaleTimerStates(s, m, r0), StaleTimerSchedule(s, m, r0, r1);
            StepAt(trace, steps, 3) && StepAt(trace, steps, 4) && StepAt(trace, steps, 5)
  {
    var t4 := StaleTimerStates(s, m, r0)[4];
    assert Next(t4, FinishTimeout(0)).pending == map[];
  }

  /** So a registered waiter is not promised its Complete: on that schedule the reply to the second
      request, sent while its waiter is still waiting, reaches nobody. */
  lemma StaleTimerLosesReply(s: string, m: string, r0: Response, r1: Response) returns (trace: seq<State>)
    ensures IsRun(trace, StaleTimerSchedule(s, m, r0, r1))
    ensures |trace[6].channels| == 2 && trace[6].channels[1].wait.Waiting?
    ensures trace[6].channels[1].sent == [] && trace[6].pending == map[]
  {
    StaleTimerStarts(s, m, r0, r1);
    StaleTimerGoesOn(s, m, r0, r1);
    hide StepAt;
    trace := StaleTimerStates(s, m, r0);
  }

  /** The other way to lose a reply: it arrives undisturbed, but after the waiter's timer has won. */
  lemma LateReplyLost(s: string, m: string, r: Response) returns (trace: seq<State>)
    ensures IsRun(trace, [Register(s, "", m), FireTimer(0), Complete(s, m, r), FinishTimeout(0)])
    ensures DeliversAt(trace, 2, 0, r)
    ensures trace[4].channels == [Answered(s, m, r, Returned(TIMEOUT_RESPONSE))]
  {
    var key, waiting := RegistryKey(s, m), Channel(s, "", m, None, Waiting, []);
    var t1 := State(map[key := 0], [waiting], {});
    var t2 := State(map[key := 0], [waiting.(wait := TimerFired)], {});
    var t3 := State(map[], [Answered(s, m, r, TimerFired)], {});
    var t4 := State(map[], [Answered(s, m, r, Returned(TIMEOUT_RESPONSE))], {});
    assert Put(t2.channels[0], FromComplete(s, m), r) == Answered(s, m, r, TimerFired);
    assert Next(INIT, Register(s, "", m)) == t1 && Next(t1, FireTimer(0)) == t2;
    assert Next(t2, Complete(s, m, r)) == t3 && Next(t3, FinishTimeout(0)) == t4;
    hide Next;
    trace := [INIT, t1, t2, t3, t4];
    var steps := [Register(s, "", m), FireTimer(0), Complete(s, m, r), FinishTimeout(0)];
    assert StepAt(trace, steps, 0) && StepAt(trace, steps, 1) && StepAt(trace, steps, 2) && StepAt(trace, steps, 3);
  }

  function Answered(s: string, m: string, r: Response, wait: Wait): Channel {
    Channel(s, "", m, Some(r), wait, [Sent(FromComplete(s, m), r)])
  }

  // ---- The registry as it runs ----

  class ServerInitiatedRegistry {
    var pending: map<string, nat>
    var channels: seq<Channel>
    var replying: set<nat>

    ghost function View(): State
      reads this
    {
      State(pending, channels, replying)
    }

    constructor ()
      ensures View() == INIT && Inv(View())
    {
      pending, channels, replying := map[], [], {};
    }

    method Register(sessionID: string, authCtxID: string, messageType: string) returns (ch: nat)
      requires Inv(View())
      modifies this
      ensures ch == |old(channels)| && Inv(View())
      ensures View() == Next(old(View()), Step.Register(sessionID, authCtxID, messageType))
    {
      InvStep(View(), Step.Register(sessionID, authCtxID, messageType));
      hide Inv;
      var key := RegistryKey(sessionID, messageType);
      ch := |channels|;
      channels := channels + [Channel(sessionID, authCtxID, messageType, None, Waiting, [])];
      if key in pending {
        pending := pending - {key};
        replying := replying + {ch};
        return;
      }
      pending := pending[key := ch];
    }

    method Complete(sessionID: string, messageType: string, response: Response)
      requires Inv(View())
      modifies this
      ensures View() == Next(old(View()), Step.Complete(sessionID, messageType, response)) && Inv(View())
      ensures forall key | key in pending :: key in old(pending) && pending[key] == old(pending)[key]
    {
      ghost var before := View();
      InvStep(before, Step.Complete(sessionID, messageType, response));
      var key := RegistryKey(sessionID, messageType);
      if key !in pending {
        return;
      }
      assert EntryOk(before, key);
      var ch := pending[key];
      pending := pending - {key};
      if channels[ch].slot.None? {
        channels := channels[ch := Put(channels[ch], FromComplete(sessionID, messageType), response)];
      }
    }

    method Expire(sessionID: string, messageType: string)
      requires Inv(View())
      modifies this
      ensures View() == Next(old(View()), Step.Expire(sessionID, messageType)) && Inv(View())
    {
      InvStep(View(), Step.Expire(sessionID, messageType));
      hide Inv;
      pending := pending - {RegistryKey(sessionID, messageType)};
    }

    /** The goroutine that answers a duplicate registration. */
    method SendDuplicate(ch: nat)
      requires Inv(View()) && ch in replying
      modifies this
      ensures View() == Next(old(View()), DuplicateReply(ch)) && Inv(View())
    {
      InvStep(View(), DuplicateReply(ch));
      channels := channels[ch := Put(channels[ch], FromDuplicate, DUPLICATE_RESPONSE)];
      replying := replying - {ch};
    }

    /** One Wait call; `timerWins` is the choice the select makes when it has one. */
    method Wait(ch: nat, timerWins: bool) returns (response: Response)
      requires Inv(View()) && ch < |channels| && channels[ch].wait.Waiting?
      requires !timerWins ==> channels[ch].slot.Some?
      modifies this
      ensures Inv(View()) && |channels| == |old(channels)| && channels[ch].wait == Returned(response)
      ensures !timerWins ==> View() == Next(old(View()), Receive(ch))
      ensures timerWins ==> View() == Next(Next(old(View()), FireTimer(ch)), FinishTimeout(ch))
    {
      if !timerWins {
        InvStep(View(), Receive(ch));
        response := channels[ch].slot.value;
        channels := channels[ch := channels[ch].(slot := None, wait := Returned(response))];
      } else {
        InvStep(View(), FireTimer(ch));
        channels := channels[ch := channels[ch].(wait := TimerFired)];
        InvStep(View(), FinishTimeout(ch));
        Expire(channels[ch].sessionID, channels[ch].messageType);
        response := TIMEOUT_RESPONSE;
        channels := channels[ch := channels[ch].(wait := Returned(response))];
      }
    }
  }
}
