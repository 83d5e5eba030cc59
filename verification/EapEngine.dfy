/** The EAP engine: what one Process call does to a session, and what holds of every sequence of calls.
    The AAA server is an arbitrary oracle: each call carries the outcome that SendEAP would have. SHA-256
    is an arbitrary function with 32-byte values. Two clock readings per call bracket the AAA exchange. */
module EapEngine {
  import opened Base
  import opened EapCodec
  import opened EapSession

  type Hash = h: bytes -> bytes | forall x :: |h(x)| == 32 witness (x => seq(32, _ => 0))

  /** The engine's surroundings: the hash, whether an AAA client is set, and the store's time-to-live. */
  datatype Env = Env(hash: Hash, aaaConfigured: bool, ttl: int)

  datatype AaaOutcome = AaaError | AaaReply(reply: Option<bytes>)

  datatype Call = Call(payload: bytes, start: int, finish: int, aaa: AaaOutcome)

  datatype EapResult = Continue | Succeeded | Failed | Ignored | TimedOut

  datatype AuthResult = AuthSuccess | AuthFailure | AuthPending

  datatype Error =
    | ErrSessionNotFound | ErrSessionTimeout | ErrSessionAlreadyDone | ErrEapIDMismatch | ErrMaxRoundsExceeded
    | ErrInvalidStateTransition | ErrParse(reason: ParseError) | ErrNotResponse | ErrNoAaaClient | ErrAaa | ErrNilResponse

  /** One packet handed to SendEAP. */
  datatype Send = Send(id: byte, payload: bytes, aaa: AaaOutcome)

  datatype Reply = Reply(message: Option<bytes>, result: AuthResult, error: Option<Error>)

  /** A session after a piece of processing, the response to pass on, and what was sent on the way. */
  datatype Advance = Advance(view: SessionView, response: Option<bytes>, result: EapResult, error: Option<Error>,
                             sends: seq<Send>)

  datatype Outcome = Outcome(view: SessionView, reply: Reply, sends: seq<Send>)

  const METHOD_IDENTITY: byte := 1
  const METHOD_TLS: byte := 13

  function NextID(id: byte): byte { (id + 1) % 256 }

  function DetectMethod(identity: bytes): byte { if identity == [] then METHOD_IDENTITY else METHOD_TLS }

  function AuthResultOf(r: EapResult): AuthResult {
    match r
    case Succeeded => AuthSuccess
    case Failed => AuthFailure
    case Continue => AuthPending
    case Ignored => AuthPending
    case TimedOut => AuthFailure
  }

  /** forwardToAAA: the response or the error, and the packet sent, if any. */
  function ForwardToAAA(env: Env, packet: Packet, call: Call): (Option<bytes>, Option<Error>, seq<Send>) {
    if !env.aaaConfigured then (None, Some(ErrNoAaaClient), [])
    else
      var sends := [Send(packet.id, call.payload, call.aaa)];
      match call.aaa
      case AaaError => (None, Some(ErrAaa), sends)
      case AaaReply(r) => (r, None, sends)
  }

  function AfterInit(v: SessionView, packet: Packet, now: int): SessionView {
    v.(expectedID := NextID(packet.id), rounds := 1, state := EapExchange, lastActivity := now,
       eapMethod := if packet.typ == METHOD_IDENTITY then DetectMethod(packet.data) else v.eapMethod)
  }

  function InitSpec(env: Env, v: SessionView, packet: Packet, call: Call): Advance {
    if packet.code != CODE_RESPONSE then Advance(v, None, Ignored, Some(ErrNotResponse), [])
    else
      var (response, error, sends) := ForwardToAAA(env, packet, call);
      var v' := AfterInit(v, packet, call.start);
      if response.None? then Advance(v', None, EapResult.Failed, Some(ErrNilResponse), sends)
      else Advance(v', response, Continue, error, sends)
  }

  function ExchangeSpec(env: Env, v: SessionView, packet: Packet, call: Call): Advance {
    if packet.id != v.expectedID then Advance(v, None, Ignored, Some(ErrEapIDMismatch), [])
    else if v.rounds >= v.maxRounds then
      Advance(v.(state := SessionState.Failed, lastActivity := call.start),
              None, EapResult.Failed, Some(ErrMaxRoundsExceeded), [])
    else
      var v1 := v.(rounds := v.rounds + 1, expectedID := NextID(packet.id), lastActivity := call.start);
      var (response, error, sends) := ForwardToAAA(env, packet, call);
      if error.Some? then Advance(v1, None, EapResult.Failed, error, sends)
      else if response.None? then Advance(v1, None, EapResult.Failed, Some(ErrNilResponse), sends)
      else
        var parsed := Parse(response.value);
        if parsed.Failure? then Advance(v1, None, EapResult.Failed, Some(ErrParse(parsed.error)), sends)
        else
          var v2 := v1.(lastNonce := env.hash(call.payload), cached := response);
          if parsed.value.code == CODE_SUCCESS then
            Advance(v2.(state := Done, lastActivity := call.finish), response, Succeeded, None, sends)
          else if parsed.value.code == CODE_FAILURE then
            Advance(v2.(state := SessionState.Failed, lastActivity := call.finish), response, EapResult.Failed, None, sends)
          else Advance(v2, response, Continue, None, sends)
  }

  function CompletingSpec(env: Env, v: SessionView, packet: Packet, call: Call): Advance {
    var v' := v.(rounds := v.rounds + 1, expectedID := NextID(packet.id));
    var (response, error, sends) := ForwardToAAA(env, packet, call);
    if response.None? then Advance(v', None, EapResult.Failed, Some(ErrNilResponse), sends)
    else Advance(v', response, Continue, error, sends)
  }

  function AdvanceSpec(env: Env, v: SessionView, packet: Packet, call: Call): Advance {
    match v.state
    case Init => InitSpec(env, v, packet, call)
    case EapExchange => ExchangeSpec(env, v, packet, call)
    case Completing => CompletingSpec(env, v, packet, call)
    case Done => Advance(v, None, Ignored, Some(ErrSessionAlreadyDone), [])
    case Failed => Advance(v, None, Ignored, Some(ErrSessionAlreadyDone), [])
    case TimedOut => Advance(v, None, EapResult.TimedOut, Some(ErrSessionTimeout), [])
    case Idle => Advance(v, None, Ignored, Some(ErrInvalidStateTransition), [])
  }

  predicate IsRetry(env: Env, v: SessionView, payload: bytes) {
    v.lastNonce == env.hash(payload) && v.cached.Some?
  }

  /** One Process call on a stored session. */
  function ProcessSpec(env: Env, v: SessionView, call: Call): Outcome {
    if v.IsExpired(env.ttl, call.start) then Outcome(v, Reply(None, AuthFailure, Some(ErrSessionNotFound)), [])
    else if v.IsTimedOut(call.start) then
      Outcome(v.(state := SessionState.TimedOut, lastActivity := call.start),
              Reply(None, AuthFailure, Some(ErrSessionTimeout)), [])
    else
      var parsed := Parse(call.payload);
      if parsed.Failure? then Outcome(v, Reply(None, AuthFailure, Some(ErrParse(parsed.error))), [])
      else if IsRetry(env, v, call.payload) then Outcome(v, Reply(v.cached, AuthPending, None), [])
      else
        var a := AdvanceSpec(env, v, parsed.value, call);
        var v' := a.view.(lastNonce := env.hash(call.payload), lastActivity := call.finish,
                          cached := if a.response.Some? then a.response else a.view.cached);
        if a.error.Some? then Outcome(v', Reply(None, AuthFailure, a.error), a.sends)
        else Outcome(v', Reply(a.response, AuthResultOf(a.result), None), a.sends)
  }

  // ---- Runs ----

  datatype History = History(view: SessionView, sends: seq<Send>, replies: seq<Reply>)

  /** The session, everything sent to the AAA server and every answer given, after `calls` on `v0`. */
  function Run(env: Env, v0: SessionView, calls: seq<Call>): History {
    if calls == [] then History(v0, [], [])
    else
      var h := Run(env, v0, calls[..|calls| - 1]);
      Extended(h, ProcessSpec(env, h.view, calls[|calls| - 1]))
  }

  function Extended(h: History, o: Outcome): History { History(o.view, h.sends + o.sends, h.replies + [o.reply]) }

  /** Reference definitions over what went to the AAA server alone: the reply to the first packet is
      accepted as it is, a later one when it parses. */
  function Accepted(sends: seq<Send>, i: nat): bool
    requires i < |sends|
  {
    sends[i].aaa.AaaReply? && sends[i].aaa.reply.Some? && (i == 0 || Parse(sends[i].aaa.reply.value).Success?)
  }

  function LastAccepted(sends: seq<Send>): Option<bytes> {
    if sends == [] then None
    else if Accepted(sends, |sends| - 1) then sends[|sends| - 1].aaa.reply
    else LastAccepted(sends[..|sends| - 1])
  }

  predicate ParsesAs(wire: Option<bytes>, code: byte) {
    wire.Some? && Parse(wire.value).Success? && Parse(wire.value).value.code == code
  }

  /** The last packet sent was not the first and was answered with EAP-Success. */
  predicate EndsInSuccess(sends: seq<Send>) {
    |sends| >= 2 && Accepted(sends, |sends| - 1) && ParsesAs(sends[|sends| - 1].aaa.reply, CODE_SUCCESS)
  }

  function CountSuccess(replies: seq<Reply>): nat {
    if replies == [] then 0
    else CountSuccess(replies[..|replies| - 1]) + if replies[|replies| - 1].result == AuthSuccess then 1 else 0
  }

  predicate Consecutive(sends: seq<Send>) {
    forall i | 0 <= i < |sends| ::
      && sends[i].id == (sends[0].id + i) % 256
      && Parse(sends[i].payload).Success? && Parse(sends[i].payload).value.id == sends[i].id
  }

  ghost predicate Counters(env: Env, h: History) {
    && 0 <= h.view.rounds <= Max(1, h.view.maxRounds)
    && h.view.state !in {Idle, Completing}
    && (h.view.state == Init ==> h.view.rounds == 0 && h.view.cached == None)
    && |h.sends| == (if env.aaaConfigured then h.view.rounds else 0)
    && Consecutive(h.sends)
    && (env.aaaConfigured && h.view.state == EapExchange ==>
          h.sends != [] && h.view.expectedID == (h.sends[0].id + |h.sends|) % 256)
  }

  ghost predicate Answers(h: History) {
    && h.view.cached == LastAccepted(h.sends)
    && CountSuccess(h.replies) == (if EndsInSuccess(h.sends) then 1 else 0)
    && (h.view.state == Done ==> EndsInSuccess(h.sends))
    && (EndsInSuccess(h.sends) ==> h.view.state in {Done, SessionState.TimedOut})
  }

  lemma SendAppended(sends: seq<Send>, s: Send)
    ensures LastAccepted(sends + [s])
            == if Accepted(sends + [s], |sends|) then s.aaa.reply else LastAccepted(sends)
    ensures EndsInSuccess(sends + [s])
            <==> |sends| >= 1 && Accepted(sends + [s], |sends|) && ParsesAs(s.aaa.reply, CODE_SUCCESS)
  {
    assert (sends + [s])[..|sends|] == sends;
  }

  lemma ReplyAppended(replies: seq<Reply>, r: Reply)
    ensures CountSuccess(replies + [r]) == CountSuccess(replies) + if r.result == AuthSuccess then 1 else 0
  {
    assert (replies + [r])[..|replies|] == replies;
  }

  // What a call on a session can do, sorted by what reaches the AAA server.

  predicate Quiet(v: SessionView, o: Outcome) {
    && o.sends == [] && o.reply.result != AuthSuccess
    && o.view.rounds == v.rounds && o.view.expectedID == v.expectedID && o.view.cached == v.cached
    && o.view.maxRounds == v.maxRounds
    && (|| o.view.state == v.state
        || o.view.state == SessionState.TimedOut
        || (v.state == EapExchange && o.view.state == SessionState.Failed))
  }

  predicate Forwarded(env: Env, v: SessionView, call: Call, o: Outcome) {
    && Parse(call.payload).Success?
    && o.view.expectedID == NextID(Parse(call.payload).value.id)
    && o.view.maxRounds == v.maxRounds && o.view.rounds == v.rounds + 1
    && o.sends == (if env.aaaConfigured then [Send(Parse(call.payload).value.id, call.payload, call.aaa)] else [])
    && (!env.aaaConfigured ==> o.view.cached == v.cached && o.view.state == EapExchange && o.reply.result != AuthSuccess)
  }

  predicate Started(env: Env, v: SessionView, call: Call, o: Outcome) {
    && Forwarded(env, v, call, o)
    && v.state == Init && o.view.state == EapExchange && o.reply.result != AuthSuccess
    && (env.aaaConfigured ==>
          o.view.cached == if call.aaa.AaaReply? && call.aaa.reply.Some? then call.aaa.reply else v.cached)
  }

  predicate Exchanged(env: Env, v: SessionView, call: Call, o: Outcome) {
    && Forwarded(env, v, call, o)
    && v.state == EapExchange && Parse(call.payload).value.id == v.expectedID && v.rounds < v.maxRounds
    && o.view.state in {EapExchange, Done, SessionState.Failed}
    && (env.aaaConfigured ==>
          var accepted := call.aaa.AaaReply? && call.aaa.reply.Some? && Parse(call.aaa.reply.value).Success?;
          && o.view.cached == (if accepted then call.aaa.reply else v.cached)
          && (o.view.state == Done <==> accepted && ParsesAs(call.aaa.reply, CODE_SUCCESS))
          && (o.reply.result == AuthSuccess <==> o.view.state == Done))
  }

  lemma ProcessCases(env: Env, v: SessionView, call: Call)
    requires v.state !in {Idle, Completing} && (v.state == Init ==> v.rounds == 0)
    ensures var o := ProcessSpec(env, v, call);
            Quiet(v, o) || Started(env, v, call, o) || Exchanged(env, v, call, o)
  {
    hide Parse;
    if v.IsExpired(env.ttl, call.start) || v.IsTimedOut(call.start) || Parse(call.payload).Failure?
       || IsRetry(env, v, call.payload) {
      assert Quiet(v, ProcessSpec(env, v, call));
    } else if v.state == Init {
      InitCases(env, v, call);
    } else if v.state == EapExchange {
      ExchangeCases(env, v, call);
    }
  }

  predicate Reaches(env: Env, v: SessionView, call: Call) {
    && !v.IsExpired(env.ttl, call.start) && !v.IsTimedOut(call.start)
    && Parse(call.payload).Success? && !IsRetry(env, v, call.payload)
  }

  lemma InitCases(env: Env, v: SessionView, call: Call)
    requires Reaches(env, v, call) && v.state == Init && v.rounds == 0
    ensures var o := ProcessSpec(env, v, call); Quiet(v, o) || Started(env, v, call, o)
  {
    hide Parse;
    hide ExchangeSpec, CompletingSpec;
  }

  /** The same sorting for handleExchange alone. */
  predicate ExchangeQuiet(v: SessionView, a: Advance) {
    && a.sends == [] && a.error.Some? && a.response.None?
    && (a.view == v || a.view == v.(state := SessionState.Failed, lastActivity := a.view.lastActivity))
  }

  predicate ExchangeForwarded(env: Env, v: SessionView, packet: Packet, call: Call, a: Advance) {
    && packet.id == v.expectedID && v.rounds < v.maxRounds
    && a.view.rounds == v.rounds + 1 && a.view.expectedID == NextID(packet.id) && a.view.maxRounds == v.maxRounds
    && a.sends == (if env.aaaConfigured then [Send(packet.id, call.payload, call.aaa)] else [])
    && var accepted := env.aaaConfigured && call.aaa.AaaReply? && call.aaa.reply.Some? && Parse(call.aaa.reply.value).Success?;
       && a.error.None? == accepted && a.response == (if accepted then call.aaa.reply else None)
       && a.view.cached == (if accepted then call.aaa.reply else v.cached)
       && a.view.state == (if !accepted then EapExchange else if ParsesAs(call.aaa.reply, CODE_SUCCESS) then Done
                           else if ParsesAs(call.aaa.reply, CODE_FAILURE) then SessionState.Failed else EapExchange)
       && (a.result == Succeeded <==> a.view.state == Done)
  }

  lemma ExchangeShape(env: Env, v: SessionView, packet: Packet, call: Call)
    requires v.state == EapExchange
    ensures var a := ExchangeSpec(env, v, packet, call);
            ExchangeQuiet(v, a) || ExchangeForwarded(env, v, packet, call, a)
  {
    hide Parse, NextID;
    if packet.id == v.expectedID && v.rounds < v.maxRounds {
      assert ExchangeForwarded(env, v, packet, call, ExchangeSpec(env, v, packet, call));
    }
  }

  lemma ExchangeCases(env: Env, v: SessionView, call: Call)
    requires Reaches(env, v, call) && v.state == EapExchange
    ensures var o := ProcessSpec(env, v, call); Quiet(v, o) || Exchanged(env, v, call, o)
  {
    ExchangeShape(env, v, Parse(call.payload).value, call);
    hide Parse, ExchangeSpec, InitSpec, CompletingSpec;
  }

  lemma ConsecutiveAppended(sends: seq<Send>, s: Send)
    requires Consecutive(sends) && (sends == [] || s.id == (sends[0].id + |sends|) % 256)
    requires Parse(s.payload).Success? && Parse(s.payload).value.id == s.id
    ensures Consecutive(sends + [s])
  {
    hide Parse;
  }

  lemma CountersQuiet(env: Env, h: History, o: Outcome)
    requires Counters(env, h) && Quiet(h.view, o)
    ensures Counters(env, Extended(h, o))
  {
    hide Consecutive;
    assert h.sends + o.sends == h.sends;
  }

  lemma NextIDOf(n: nat)
    ensures NextID(n % 256) == (n + 1) % 256
  {
  }

  lemma CountersStarted(env: Env, h: History, call: Call, o: Outcome)
    requires Counters(env, h) && Started(env, h.view, call, o)
    ensures Counters(env, Extended(h, o))
  {
    hide Parse, ParsesAs, Consecutive;
    assert h.sends == [] && h.sends + o.sends == o.sends;
    if o.sends != [] { ConsecutiveAppended([], o.sends[0]); }
  }

  lemma CountersExchanged(env: Env, h: History, call: Call, o: Outcome)
    requires Counters(env, h) && Exchanged(env, h.view, call, o)
    ensures Counters(env, Extended(h, o))
  {
    hide Parse, ParsesAs, Consecutive;
    if o.sends == [] {
      assert h.sends + o.sends == h.sends;
    } else {
      ConsecutiveAppended(h.sends, o.sends[0]);
      NextIDOf(h.sends[0].id + |h.sends|);
      hide NextID;
      assert (h.sends + o.sends)[0] == h.sends[0];
    }
  }

  lemma AnswersExtended(env: Env, h: History, call: Call, o: Outcome)
    requires Counters(env, h) && Answers(h)
    requires Quiet(h.view, o) || Started(env, h.view, call, o) || Exchanged(env, h.view, call, o)
    ensures Answers(Extended(h, o))
  {
    hide Parse, Consecutive, LastAccepted, CountSuccess;
    ReplyAppended(h.replies, o.reply);
    if o.sends == [] {
      assert h.sends + o.sends == h.sends;
    } else {
      SendAppended(h.sends, o.sends[0]);
    }
  }

  lemma {:induction false} RunInvariant(env: Env, maxRounds: int, timeout: int, now: int, calls: seq<Call>)
    ensures var h := Run(env, NewView(maxRounds, timeout, now), calls);
            Counters(env, h) && Answers(h) && h.view.maxRounds == maxRounds
  {
    hide ProcessSpec;
    if calls != [] {
      var before := calls[..|calls| - 1];
      RunInvariant(env, maxRounds, timeout, now, before);
      var h, call := Run(env, NewView(maxRounds, timeout, now), before), calls[|calls| - 1];
      var o := ProcessSpec(env, h.view, call);
      ProcessCases(env, h.view, call);
      if Quiet(h.view, o) {
        CountersQuiet(env, h, o);
      } else if Started(env, h.view, call, o) {
        CountersStarted(env, h, call, o);
      } else {
        CountersExchanged(env, h, call, o);
      }
      AnswersExtended(env, h, call, o);
      hide Counters, Answers, Started, Exchanged;
    }
  }

  // ---- The main facts, for every run of a new session ----

  /** With an AAA client the packets sent are as many as the rounds counted and never more than the limit
      (never more than one when the limit is below one); COMPLETING is never reached; and the packets sent
      carry consecutive identifiers modulo 256. */
  lemma RoundsAreBounded(env: Env, maxRounds: int, timeout: int, now: int, calls: seq<Call>)
    requires env.aaaConfigured
    ensures var h := Run(env, NewView(maxRounds, timeout, now), calls);
            && |h.sends| == h.view.rounds <= Max(1, maxRounds)
            && h.view.state != Completing
            && forall i | 0 <= i < |h.sends| ::
                 && Parse(h.sends[i].payload).Success?
                 && Parse(h.sends[i].payload).value.id == (h.sends[0].id + i) % 256
  {
    RunInvariant(env, maxRounds, timeout, now, calls);
    hide Run, Parse;
  }

  /** Without one nothing is ever sent and no run succeeds. */
  lemma NothingSentWithoutClient(env: Env, maxRounds: int, timeout: int, now: int, calls: seq<Call>)
    requires !env.aaaConfigured
    ensures var h := Run(env, NewView(maxRounds, timeout, now), calls);
            h.sends == [] && CountSuccess(h.replies) == 0 && h.view.cached == None
  {
    RunInvariant(env, maxRounds, timeout, now, calls);
    hide Run, Parse;
  }

  lemma MessageIsCached(env: Env, v: SessionView, call: Call)
    ensures var o := ProcessSpec(env, v, call); o.reply.message.Some? ==> o.reply.message == o.view.cached
  {
    hide Parse;
  }

  /** The cached response is byte for byte the last AAA reply the engine accepted, and a message that any
      call returns is the response cached after that call. */
  lemma CacheIsLastAcceptedReply(env: Env, maxRounds: int, timeout: int, now: int, calls: seq<Call>, call: Call)
    ensures var h := Run(env, NewView(maxRounds, timeout, now), calls + [call]);
            && h.view.cached == LastAccepted(h.sends)
            && |h.replies| > 0
            && (h.replies[|h.replies| - 1].message.Some? ==> h.replies[|h.replies| - 1].message == LastAccepted(h.sends))
  {
    RunInvariant(env, maxRounds, timeout, now, calls + [call]);
    assert (calls + [call])[..|calls|] == calls;
    MessageIsCached(env, Run(env, NewView(maxRounds, timeout, now), calls).view, call);
    hide ProcessSpec, Counters, LastAccepted;
  }

  /** Success is reported at most once per session: exactly when the last packet sent was answered with
      EAP-Success, and that packet was not the first. A session that is Done holds that EAP-Success. */
  lemma SuccessAtMostOnce(env: Env, maxRounds: int, timeout: int, now: int, calls: seq<Call>)
    ensures var h := Run(env, NewView(maxRounds, timeout, now), calls);
            && CountSuccess(h.replies) == (if EndsInSuccess(h.sends) then 1 else 0)
            && (CountSuccess(h.replies) == 1 ==> h.view.state in {Done, SessionState.TimedOut})
            && (h.view.state == Done ==> CountSuccess(h.replies) == 1 && ParsesAs(h.view.cached, CODE_SUCCESS))
  {
    RunInvariant(env, maxRounds, timeout, now, calls);
    hide Run, Parse;
  }

  /** An ongoing exchange takes the packet of this call to the AAA server: known before the call. */
  predicate Forwards(env: Env, v: SessionView, call: Call) {
    && v.state == EapExchange && Reaches(env, v, call) && Parse(call.payload).value.id == v.expectedID
    && v.rounds < v.maxRounds && env.aaaConfigured
  }

  /** A call reports success exactly when it forwards a packet of an ongoing exchange and the reply parses
      as EAP-Success; the session is then Done and the message returned is that reply. */
  lemma SuccessIff(env: Env, v: SessionView, call: Call)
    ensures var o := ProcessSpec(env, v, call);
            && (o.reply.result == AuthSuccess <==>
                  Forwards(env, v, call) && call.aaa.AaaReply? && ParsesAs(call.aaa.reply, CODE_SUCCESS))
            && (o.reply.result == AuthSuccess ==> o.view.state == Done && o.reply.message == call.aaa.reply)
            && (o.view.state == Done && v.state != Done ==> o.reply.result == AuthSuccess)
  {
    hide Parse;
    if v.state == EapExchange && Reaches(env, v, call) {
      ExchangeShape(env, v, Parse(call.payload).value, call);
    } else if v.state == Init && Reaches(env, v, call) {
      assert AdvanceSpec(env, v, Parse(call.payload).value, call) == InitSpec(env, v, Parse(call.payload).value, call);
    }
  }

  /** How a session that has not ended ends: it times out exactly when it was idle for too long, is Done exactly
      when a packet it forwards is answered with EAP-Success, and fails exactly when a packet with the expected
      identifier comes in after the last round or is answered with EAP-Failure. */
  lemma EndsIff(env: Env, v: SessionView, call: Call)
    requires v.state in {Init, EapExchange}
    ensures var o := ProcessSpec(env, v, call);
            && (o.view.state == SessionState.TimedOut <==> !v.IsExpired(env.ttl, call.start) && v.IsTimedOut(call.start))
            && (o.view.state == Done <==>
                  Forwards(env, v, call) && call.aaa.AaaReply? && ParsesAs(call.aaa.reply, CODE_SUCCESS))
            && (o.view.state == SessionState.Failed <==>
                  && v.state == EapExchange && Reaches(env, v, call) && Parse(call.payload).value.id == v.expectedID
                  && (v.rounds >= v.maxRounds
                      || (env.aaaConfigured && call.aaa.AaaReply? && ParsesAs(call.aaa.reply, CODE_FAILURE))))
  {
    hide Parse;
    SuccessIff(env, v, call);
  }

  // ---- The exact answer of a call ----

  /** The first packet of a session that the engine takes up. */
  predicate Starts(env: Env, v: SessionView, call: Call) {
    v.state == Init && Reaches(env, v, call) && Parse(call.payload).value.code == CODE_RESPONSE
  }

  /** A packet of an ongoing exchange that counts as a round, whether or not it can be forwarded. */
  predicate GoesOn(env: Env, v: SessionView, call: Call) {
    && v.state == EapExchange && Reaches(env, v, call)
    && Parse(call.payload).value.id == v.expectedID && v.rounds < v.maxRounds
  }

  /** A packet whose reply is passed on unread: the first, and any in COMPLETING. */
  predicate PassesOn(env: Env, v: SessionView, call: Call) {
    Starts(env, v, call) || (v.state == Completing && Reaches(env, v, call))
  }

  /** The AAA server has something to say. */
  predicate Replied(env: Env, call: Call) { env.aaaConfigured && call.aaa.AaaReply? && call.aaa.reply.Some? }

  /** Neither expired nor idle, readable, and a repeat of the last message with a reply in the cache. */
  predicate Repeats(env: Env, v: SessionView, call: Call) {
    && !v.IsExpired(env.ttl, call.start) && !v.IsTimedOut(call.start)
    && Parse(call.payload).Success? && IsRetry(env, v, call.payload)
  }

  predicate ParsesAsOther(wire: bytes) {
    Parse(wire).Success? && Parse(wire).value.code != CODE_SUCCESS && Parse(wire).value.code != CODE_FAILURE
  }

  /** What a call answers when nothing goes wrong, message and result together: the cached reply to a repeat, the AAA
      server's reply otherwise; success, failure or pending by the code of a later reply, pending for one passed on unread. */
  lemma AnswersWithMessage(env: Env, v: SessionView, call: Call)
    ensures var o := ProcessSpec(env, v, call);
            && (Repeats(env, v, call) ==> o.reply == Reply(v.cached, AuthPending, None))
            && (PassesOn(env, v, call) && Replied(env, call) ==> o.reply == Reply(call.aaa.reply, AuthPending, None))
            && (GoesOn(env, v, call) && Replied(env, call) && ParsesAs(call.aaa.reply, CODE_SUCCESS) ==>
                  o.reply == Reply(call.aaa.reply, AuthSuccess, None))
            && (GoesOn(env, v, call) && Replied(env, call) && ParsesAs(call.aaa.reply, CODE_FAILURE) ==>
                  o.reply == Reply(call.aaa.reply, AuthFailure, None))
            && (GoesOn(env, v, call) && Replied(env, call) && ParsesAsOther(call.aaa.reply.value) ==>
                  o.reply == Reply(call.aaa.reply, AuthPending, None))
  {
    hide Parse, NextID, DetectMethod;
  }

  /** And only then: in every other case there is no message, the result is failure, and the error says which guard
      stopped the call. */
  lemma AnswersWithError(env: Env, v: SessionView, call: Call)
    ensures var o := ProcessSpec(env, v, call);
            var fine := || Repeats(env, v, call)
                        || (PassesOn(env, v, call) && Replied(env, call))
                        || (GoesOn(env, v, call) && Replied(env, call) && Parse(call.aaa.reply.value).Success?);
            && (o.reply.error.None? <==> fine)
            && (!fine ==> o.reply == Reply(None, AuthFailure, o.reply.error))
  {
    hide Parse, NextID, DetectMethod;
  }

  lemma ErrorsBeforeTheState(env: Env, v: SessionView, call: Call)
    ensures var e := ProcessSpec(env, v, call).reply.error;
            var alive := !v.IsExpired(env.ttl, call.start) && !v.IsTimedOut(call.start);
            && (v.IsExpired(env.ttl, call.start) <==> e == Some(ErrSessionNotFound))
            && (!v.IsExpired(env.ttl, call.start) && v.IsTimedOut(call.start) ==> e == Some(ErrSessionTimeout))
            && (alive && Parse(call.payload).Failure? ==> e == Some(ErrParse(Parse(call.payload).error)))
  {
    if Reaches(env, v, call) { ErrorsByState(env, v, call); }
    hide Parse, AdvanceSpec;
  }

  /** Which error a call that reaches the state machine returns. */
  lemma ErrorsByState(env: Env, v: SessionView, call: Call)
    requires Reaches(env, v, call)
    ensures var e, p := ProcessSpec(env, v, call).reply.error, Parse(call.payload).value;
            && (v.state == Init ==>
                  && (p.code != CODE_RESPONSE <==> e == Some(ErrNotResponse))
                  && (p.code == CODE_RESPONSE && !Replied(env, call) <==> e == Some(ErrNilResponse)))
            && (v.state == EapExchange ==>
                  && (p.id != v.expectedID <==> e == Some(ErrEapIDMismatch))
                  && (p.id == v.expectedID && v.rounds >= v.maxRounds <==> e == Some(ErrMaxRoundsExceeded))
                  && (GoesOn(env, v, call) && !env.aaaConfigured <==> e == Some(ErrNoAaaClient))
                  && (GoesOn(env, v, call) && env.aaaConfigured && call.aaa.AaaError? <==> e == Some(ErrAaa))
                  && (GoesOn(env, v, call) && env.aaaConfigured && call.aaa == AaaReply(None) <==> e == Some(ErrNilResponse))
                  && (GoesOn(env, v, call) && Replied(env, call) && Parse(call.aaa.reply.value).Failure? <==>
                        e.Some? && e.value.ErrParse?))
            && (v.state in {Done, SessionState.Failed} ==> e == Some(ErrSessionAlreadyDone))
            && (v.state == SessionState.TimedOut ==> e == Some(ErrSessionTimeout))
            && (v.state == Idle ==> e == Some(ErrInvalidStateTransition))
            && (v.state == Completing ==> (!Replied(env, call) <==> e == Some(ErrNilResponse)))
  {
    hide Parse, NextID, DetectMethod;
  }

  /** The same read off the result: failure exactly with an error or on EAP-Failure, pending exactly on a repeat, a first
      reply, or a later reply that is neither success nor failure. */
  lemma ResultIff(env: Env, v: SessionView, call: Call)
    ensures var o := ProcessSpec(env, v, call);
            && (o.reply.result == AuthFailure <==>
                  || o.reply.error.Some?
                  || (GoesOn(env, v, call) && Replied(env, call) && ParsesAs(call.aaa.reply, CODE_FAILURE)))
            && (o.reply.result == AuthPending <==>
                  || Repeats(env, v, call)
                  || (PassesOn(env, v, call) && Replied(env, call))
                  || (GoesOn(env, v, call) && Replied(env, call) && ParsesAsOther(call.aaa.reply.value)))
  {
    AnswersWithMessage(env, v, call);
    AnswersWithError(env, v, call);
    hide Parse, ProcessSpec;
  }

  // ---- The session after a call ----

  lemma InitAfter(env: Env, v: SessionView, p: Packet, call: Call)
    ensures var a, starts := InitSpec(env, v, p, call), p.code == CODE_RESPONSE;
            && a.view.rounds == (if starts then 1 else v.rounds)
            && a.view.expectedID == (if starts then (p.id + 1) % 256 else v.expectedID)
            && a.view.state == (if starts then EapExchange else v.state)
            && a.sends == (if starts && env.aaaConfigured then [Send(p.id, call.payload, call.aaa)] else [])
  {
    hide DetectMethod;
  }

  lemma ExchangeAfter(env: Env, v: SessionView, p: Packet, call: Call)
    ensures var a, goesOn := ExchangeSpec(env, v, p, call), p.id == v.expectedID && v.rounds < v.maxRounds;
            && a.view.rounds == (if goesOn then v.rounds + 1 else v.rounds)
            && a.view.expectedID == (if goesOn then (p.id + 1) % 256 else v.expectedID)
            && a.sends == (if goesOn && env.aaaConfigured then [Send(p.id, call.payload, call.aaa)] else [])
  {
    hide Parse;
  }

  lemma CompletingAfter(env: Env, v: SessionView, p: Packet, call: Call)
    ensures var a := CompletingSpec(env, v, p, call);
            && a.view.rounds == v.rounds + 1 && a.view.expectedID == (p.id + 1) % 256
            && a.sends == (if env.aaaConfigured then [Send(p.id, call.payload, call.aaa)] else [])
  {
  }

  /** What a call that reaches the state machine does to the counters before the rest is settled. */
  lemma AdvanceAfter(env: Env, v: SessionView, call: Call)
    requires Reaches(env, v, call)
    ensures var p := Parse(call.payload).value;
            var a, counts := AdvanceSpec(env, v, p, call), PassesOn(env, v, call) || GoesOn(env, v, call);
            && a.view.rounds == (if Starts(env, v, call) then 1 else if counts then v.rounds + 1 else v.rounds)
            && a.view.expectedID == (if counts then (p.id + 1) % 256 else v.expectedID)
            && (Starts(env, v, call) ==> a.view.state == EapExchange)
            && a.sends == (if counts && env.aaaConfigured then [Send(p.id, call.payload, call.aaa)] else [])
  {
    var p := Parse(call.payload).value;
    hide Parse, InitSpec, ExchangeSpec, CompletingSpec, Reaches;
    match v.state {
      case Init => InitAfter(env, v, p, call);
      case EapExchange => ExchangeAfter(env, v, p, call);
      case Completing => CompletingAfter(env, v, p, call);
      case _ =>
    }
  }

  lemma AdvanceKeeps(env: Env, v: SessionView, packet: Packet, call: Call)
    ensures var a := AdvanceSpec(env, v, packet, call);
            && (a.view.createdAt, a.view.timeout, a.view.maxRounds) == (v.createdAt, v.timeout, v.maxRounds)
            && (a.view.state == SessionState.TimedOut ==> v.state == SessionState.TimedOut)
  {
    hide Parse, NextID, DetectMethod;
  }

  lemma AdvanceMethod(env: Env, v: SessionView, packet: Packet, call: Call)
    ensures var a := AdvanceSpec(env, v, packet, call);
            if v.state == Init && packet.code == CODE_RESPONSE && packet.typ == METHOD_IDENTITY
            then a.view.eapMethod == if packet.data == [] then METHOD_IDENTITY else METHOD_TLS
            else a.view.eapMethod == v.eapMethod
  {
    hide Parse, NextID;
  }

  /** What a call does to the counters and what it sends, from any state: the rounds and the expected identifier move
      exactly when a packet starts, goes on or is passed on, and exactly then it is sent, if there is a client. */
  lemma CountersAfter(env: Env, v: SessionView, call: Call)
    ensures var o, p := ProcessSpec(env, v, call), Parse(call.payload);
            var counts := PassesOn(env, v, call) || GoesOn(env, v, call);
            && o.view.rounds == (if Starts(env, v, call) then 1 else if counts then v.rounds + 1 else v.rounds)
            && o.view.expectedID == (if counts then (p.value.id + 1) % 256 else v.expectedID)
            && (Starts(env, v, call) ==> o.view.state == EapExchange)
            && o.sends == (if counts && env.aaaConfigured then [Send(p.value.id, call.payload, call.aaa)] else [])
  {
    if Reaches(env, v, call) { AdvanceAfter(env, v, call); }
    hide Parse, AdvanceSpec;
  }

  /** What it does to the rest: the EAP method is set when an identity starts the session, the nonce and the activity
      exactly when the call reaches the state machine, and the activity also when the session is found idle. */
  lemma SessionAfter(env: Env, v: SessionView, call: Call)
    ensures var o := ProcessSpec(env, v, call);
            && o.view.eapMethod == (if !Starts(env, v, call) || Parse(call.payload).value.typ != METHOD_IDENTITY then v.eapMethod
                                    else if Parse(call.payload).value.data == [] then METHOD_IDENTITY else METHOD_TLS)
            && o.view.lastNonce == (if Reaches(env, v, call) then env.hash(call.payload) else v.lastNonce)
            && o.view.lastActivity == (if Reaches(env, v, call) then call.finish
                                       else if !v.IsExpired(env.ttl, call.start) && v.IsTimedOut(call.start) then call.start
                                       else v.lastActivity)
            && (o.view.createdAt, o.view.timeout, o.view.maxRounds) == (v.createdAt, v.timeout, v.maxRounds)
  {
    if Reaches(env, v, call) {
      AdvanceKeeps(env, v, Parse(call.payload).value, call);
      AdvanceMethod(env, v, Parse(call.payload).value, call);
    }
    hide Parse, AdvanceSpec;
  }

  /** When the session was last active, read off the calls: at the end of the last call that reached the state machine,
      or when it was found idle, or when it was created. */
  function ActiveSince(env: Env, v0: SessionView, calls: seq<Call>): int {
    if calls == [] then v0.lastActivity
    else
      var v, last := Run(env, v0, calls[..|calls| - 1]).view, calls[|calls| - 1];
      if Reaches(env, v, last) then last.finish
      else if !v.IsExpired(env.ttl, last.start) && v.IsTimedOut(last.start) then last.start
      else ActiveSince(env, v0, calls[..|calls| - 1])
  }

  lemma {:induction false} ActivityRun(env: Env, v0: SessionView, calls: seq<Call>)
    ensures var v := Run(env, v0, calls).view;
            v.lastActivity == ActiveSince(env, v0, calls) && (v.createdAt, v.timeout) == (v0.createdAt, v0.timeout)
  {
    hide ProcessSpec, Reaches;
    if calls != [] {
      ActivityRun(env, v0, calls[..|calls| - 1]);
      SessionAfter(env, Run(env, v0, calls[..|calls| - 1]).view, calls[|calls| - 1]);
    }
  }

  /** After every sequence of calls on a new session: the next call finds it gone exactly when it was created more than
      the time-to-live ago, and idle exactly when it is not gone and was last active more than the timeout ago. */
  lemma IdlesOutIff(env: Env, maxRounds: int, timeout: int, now: int, calls: seq<Call>, call: Call)
    ensures var v0 := NewView(maxRounds, timeout, now);
            var v := Run(env, v0, calls).view;
            var o, gone := ProcessSpec(env, v, call), call.start - now > env.ttl;
            && (o.reply.error == Some(ErrSessionNotFound) <==> gone)
            && (!gone && call.start - ActiveSince(env, v0, calls) > timeout ==>
                  o.reply.error == Some(ErrSessionTimeout) && o.view.state == SessionState.TimedOut)
            && (o.view.state == SessionState.TimedOut && v.state != SessionState.TimedOut ==>
                  !gone && call.start - ActiveSince(env, v0, calls) > timeout)
  {
    var v0 := NewView(maxRounds, timeout, now);
    ActivityRun(env, v0, calls);
    ErrorsBeforeTheState(env, Run(env, v0, calls).view, call);
    IdleStep(env, Run(env, v0, calls).view, call);
    hide Run, ActiveSince, ProcessSpec, Parse;
  }

  lemma IdleStep(env: Env, v: SessionView, call: Call)
    ensures var o := ProcessSpec(env, v, call);
            && (!v.IsExpired(env.ttl, call.start) && v.IsTimedOut(call.start) ==> o.view.state == SessionState.TimedOut)
            && (o.view.state == SessionState.TimedOut && v.state != SessionState.TimedOut ==>
                  !v.IsExpired(env.ttl, call.start) && v.IsTimedOut(call.start))
  {
    if Reaches(env, v, call) { AdvanceKeeps(env, v, Parse(call.payload).value, call); }
    hide Parse, AdvanceSpec;
  }

  /** A session that has not started is as blank as a new one, whatever calls it has refused. */
  lemma {:induction false} UnstartedIsBlank(env: Env, maxRounds: int, timeout: int, now: int, calls: seq<Call>)
    ensures var v := Run(env, NewView(maxRounds, timeout, now), calls).view;
            v.state == Init ==> (v.rounds, v.expectedID, v.cached, v.eapMethod) == (0, 0, None, 0)
  {
    if calls != [] {
      var v0, before := NewView(maxRounds, timeout, now), calls[..|calls| - 1];
      UnstartedIsBlank(env, maxRounds, timeout, now, before);
      RunInvariant(env, maxRounds, timeout, now, before);
      RunInvariant(env, maxRounds, timeout, now, calls);
      var v, call := Run(env, v0, before).view, calls[|calls| - 1];
      CountersAfter(env, v, call);
      SessionAfter(env, v, call);
      OnlyInitStaysInit(env, v, call);
      hide ProcessSpec, Reaches, Parse;
    }
  }

  lemma OnlyInitStaysInit(env: Env, v: SessionView, call: Call)
    ensures ProcessSpec(env, v, call).view.state == Init ==> v.state == Init && !Starts(env, v, call)
  {
    hide Parse, NextID, DetectMethod;
  }

  /** A new session takes up a readable Response that comes before it runs out: that packet is sent, as round one. */
  lemma NewSessionStarts(env: Env, maxRounds: int, timeout: int, now: int, call: Call)
    requires env.aaaConfigured && call.start - now <= env.ttl && call.start - now <= timeout
    requires Parse(call.payload).Success? && Parse(call.payload).value.code == CODE_RESPONSE
    ensures var o := ProcessSpec(env, NewView(maxRounds, timeout, now), call);
            && o.sends == [Send(Parse(call.payload).value.id, call.payload, call.aaa)]
            && o.view.rounds == 1 && o.view.state == EapExchange
  {
    hide Parse;
    CountersAfter(env, NewView(maxRounds, timeout, now), call);
    hide ProcessSpec;
  }

  lemma TerminalStep(env: Env, v: SessionView, call: Call)
    requires v.state.IsTerminal()
    ensures var o := ProcessSpec(env, v, call);
            && o.view.state in {v.state, SessionState.TimedOut}
            && o.view.rounds == v.rounds && o.view.expectedID == v.expectedID && o.view.cached == v.cached
            && o.sends == [] && o.reply.result != AuthSuccess
  {
    hide Parse;
  }

  /** Once a session is Done, Failed or timed out, no sequence of calls contacts the AAA server again,
      changes its rounds, expected identifier or cached response, leaves the terminal states or succeeds. */
  lemma {:induction false} TerminalForever(env: Env, v: SessionView, calls: seq<Call>)
    requires v.state.IsTerminal()
    ensures var h := Run(env, v, calls);
            && h.view.state in {v.state, SessionState.TimedOut}
            && h.view.rounds == v.rounds && h.view.expectedID == v.expectedID && h.view.cached == v.cached
            && h.sends == [] && CountSuccess(h.replies) == 0
  {
    hide ProcessSpec;
    if calls != [] {
      var before := calls[..|calls| - 1];
      TerminalForever(env, v, before);
      var h := Run(env, v, before);
      TerminalStep(env, h.view, calls[|calls| - 1]);
      ReplyAppended(h.replies, ProcessSpec(env, h.view, calls[|calls| - 1]).reply);
    }
  }

  /** The same payload again, before the session times out or outlives its time-to-live. */
  predicate PromptRepeat(env: Env, v: SessionView, payload: bytes, call: Call) {
    call.payload == payload && !v.IsExpired(env.ttl, call.start) && !v.IsTimedOut(call.start)
  }

  /** After a call that returned a message, any number of prompt repeats of its payload return the same
      message, always as pending, without contacting the AAA server or changing the session. */
  lemma {:induction false} RetriesAreIdempotent(env: Env, v: SessionView, first: Call, repeats: seq<Call>)
    requires ProcessSpec(env, v, first).reply.message.Some?
    requires forall i | 0 <= i < |repeats| ::
               PromptRepeat(env, ProcessSpec(env, v, first).view, first.payload, repeats[i])
    ensures var o := ProcessSpec(env, v, first);
            Run(env, o.view, repeats)
            == History(o.view, [], seq(|repeats|, _ => Reply(o.reply.message, AuthPending, None)))
  {
    var o := ProcessSpec(env, v, first);
    if repeats != [] {
      var before, last := repeats[..|repeats| - 1], repeats[|repeats| - 1];
      RetriesAreIdempotent(env, v, first, before);
      assert PromptRepeat(env, o.view, first.payload, last);
      RetryReady(env, v, first);
      RetryHit(env, o.view, last);
      hide ProcessSpec;
      var r := Reply(o.reply.message, AuthPending, None);
      assert seq(|repeats|, _ => r) == seq(|before|, _ => r) + [r];
    }
  }

  lemma RetryReady(env: Env, v: SessionView, call: Call)
    requires ProcessSpec(env, v, call).reply.message.Some?
    ensures var o := ProcessSpec(env, v, call);
            o.reply.message == o.view.cached && IsRetry(env, o.view, call.payload) && Parse(call.payload).Success?
  {
    hide Parse;
  }

  lemma RetryHit(env: Env, v: SessionView, call: Call)
    requires PromptRepeat(env, v, call.payload, call) && IsRetry(env, v, call.payload) && Parse(call.payload).Success?
    ensures ProcessSpec(env, v, call) == Outcome(v, Reply(v.cached, AuthPending, None), [])
  {
    hide Parse, AdvanceSpec;
  }

  /** A packet that was processed and turned down overwrites the nonce but not the cached response: repeated
      promptly it is answered with the older response if there is one, and processed once more if not. */
  lemma RejectedRepeatGetsOlderReply(env: Env, v: SessionView, first: Call, again: Call)
    requires Reaches(env, v, first) && ProcessSpec(env, v, first).reply.error.Some?
    requires PromptRepeat(env, ProcessSpec(env, v, first).view, first.payload, again)
    ensures var v' := ProcessSpec(env, v, first).view;
            && v'.cached == v.cached
            && (v.cached.Some? ==> ProcessSpec(env, v', again) == Outcome(v', Reply(v.cached, AuthPending, None), []))
            && (v.cached.None? ==> Reaches(env, v', again))
  {
    RejectedKeepsCache(env, v, first);
    var v' := ProcessSpec(env, v, first).view;
    hide Parse, ProcessSpec;
    if v.cached.Some? { RetryHit(env, v', again); }
  }

  lemma RejectedKeepsCache(env: Env, v: SessionView, call: Call)
    requires Reaches(env, v, call) && ProcessSpec(env, v, call).reply.error.Some?
    ensures var v' := ProcessSpec(env, v, call).view; v'.cached == v.cached && v'.lastNonce == env.hash(call.payload)
  {
    hide Parse;
    if v.state == EapExchange { ExchangeShape(env, v, Parse(call.payload).value, call); }
    hide ExchangeSpec;
  }

  // ---- The engine as it runs ----

  class Engine {
    const env: Env
    const maxRounds: int
    const roundTimeout: int
    const sessions: SessionManager

    /** Zero limits stand for the defaults. */
    constructor (hash: Hash, aaaConfigured: bool, maxRounds: int, roundTimeout: int, sessionTTL: int)
      ensures fresh(sessions) && sessions.Valid() && sessions.sessions == map[] && sessions.ttl == env.ttl
      ensures env == Env(hash, aaaConfigured, if sessionTTL == 0 then DEFAULT_SESSION_TTL else sessionTTL)
      ensures this.maxRounds == if maxRounds == 0 then DEFAULT_MAX_ROUNDS else maxRounds
      ensures this.roundTimeout == if roundTimeout == 0 then DEFAULT_ROUND_TIMEOUT else roundTimeout
    {
      var ttl := if sessionTTL == 0 then DEFAULT_SESSION_TTL else sessionTTL;
      this.maxRounds := if maxRounds == 0 then DEFAULT_MAX_ROUNDS else maxRounds;
      this.roundTimeout := if roundTimeout == 0 then DEFAULT_ROUND_TIMEOUT else roundTimeout;
      env := Env(hash, aaaConfigured, ttl);
      sessions := new SessionManager(ttl);
    }

    method StartSession(authCtxID: string, now: int) returns (started: Option<Session>)
      requires sessions.Valid()
      modifies sessions
      ensures sessions.Valid()
      ensures authCtxID == "" ==> started == None && sessions.sessions == old(sessions.sessions)
      ensures authCtxID != "" ==>
                && started.Some? && fresh(started.value)
                && started.value.View() == NewView(maxRounds, roundTimeout, now)
                && sessions.sessions == old(sessions.sessions)[authCtxID := started.value]
    {
      if authCtxID == "" {
        return None;
      }
      var session := new Session(authCtxID, maxRounds, roundTimeout, now);
      sessions.Put(session);
      return Some(session);
    }

    method Forward(packet: Packet, call: Call) returns (response: Option<bytes>, error: Option<Error>, sends: seq<Send>)
      ensures (response, error, sends) == ForwardToAAA(env, packet, call)
    {
      if !env.aaaConfigured {
        return None, Some(ErrNoAaaClient), [];
      }
      sends := [Send(packet.id, call.payload, call.aaa)];
      if call.aaa.AaaError? {
        return None, Some(ErrAaa), sends;
      }
      return call.aaa.reply, None, sends;
    }

    method HandleInit(session: Session, packet: Packet, call: Call)
      returns (response: Option<bytes>, result: EapResult, error: Option<Error>, sends: seq<Send>)
      modifies session
      ensures Advance(session.View(), response, result, error, sends) == InitSpec(env, old(session.View()), packet, call)
    {
      if packet.code != CODE_RESPONSE {
        return None, Ignored, Some(ErrNotResponse), [];
      }
      session.expectedID := (packet.id + 1) % 256;
      session.rounds := 1;
      session.state := EapExchange;
      session.lastActivity := call.start;
      if packet.typ == METHOD_IDENTITY {
        session.eapMethod := DetectMethod(packet.data);
      }
      assert session.View() == AfterInit(old(session.View()), packet, call.start);
      response, error, sends := Forward(packet, call);
      if response == None {
        return None, EapResult.Failed, Some(ErrNilResponse), sends;
      }
      return response, Continue, error, sends;
    }

    method HandleExchange(session: Session, packet: Packet, call: Call)
      returns (response: Option<bytes>, result: EapResult, error: Option<Error>, sends: seq<Send>)
      modifies session
      ensures Advance(session.View(), response, result, error, sends) == ExchangeSpec(env, old(session.View()), packet, call)
    {
      hide Parse, ForwardToAAA;
      if packet.id != session.expectedID {
        return None, Ignored, Some(ErrEapIDMismatch), [];
      }
      if session.rounds >= session.maxRounds {
        session.Mark(SessionState.Failed, call.start);
        return None, EapResult.Failed, Some(ErrMaxRoundsExceeded), [];
      }
      session.rounds := session.rounds + 1;
      session.expectedID := (packet.id + 1) % 256;
      session.lastActivity := call.start;
      response, error, sends := Forward(packet, call);
      if error != None {
        return None, EapResult.Failed, error, sends;
      }
      if response == None {
        return None, EapResult.Failed, Some(ErrNilResponse), sends;
      }
      var parsed := Parse(response.value);
      if parsed.Failure? {
        return None, EapResult.Failed, Some(ErrParse(parsed.error)), sends;
      }
      session.lastNonce := env.hash(call.payload);
      session.cached := response;
      if parsed.value.code == CODE_SUCCESS {
        session.Mark(Done, call.finish);
        return response, Succeeded, None, sends;
      }
      if parsed.value.code == CODE_FAILURE {
        session.Mark(SessionState.Failed, call.finish);
        return response, EapResult.Failed, None, sends;
      }
      return response, Continue, None, sends;
    }

    method HandleCompleting(session: Session, packet: Packet, call: Call)
      returns (response: Option<bytes>, result: EapResult, error: Option<Error>, sends: seq<Send>)
      modifies session
      ensures Advance(session.View(), response, result, error, sends) == CompletingSpec(env, old(session.View()), packet, call)
    {
      hide Parse, ForwardToAAA;
      session.rounds := session.rounds + 1;
      session.expectedID := (packet.id + 1) % 256;
      response, error, sends := Forward(packet, call);
      if response == None {
        return None, EapResult.Failed, Some(ErrNilResponse), sends;
      }
      return response, Continue, error, sends;
    }

    method AdvanceState(session: Session, packet: Packet, call: Call)
      returns (response: Option<bytes>, result: EapResult, error: Option<Error>, sends: seq<Send>)
      modifies session
      ensures Advance(session.View(), response, result, error, sends) == AdvanceSpec(env, old(session.View()), packet, call)
    {
      match session.state
      case Init => response, result, error, sends := HandleInit(session, packet, call);
      case EapExchange => response, result, error, sends := HandleExchange(session, packet, call);
      case Completing => response, result, error, sends := HandleCompleting(session, packet, call);
      case Done => return None, Ignored, Some(ErrSessionAlreadyDone), [];
      case Failed => return None, Ignored, Some(ErrSessionAlreadyDone), [];
      case TimedOut => return None, EapResult.TimedOut, Some(ErrSessionTimeout), [];
      case Idle => return None, Ignored, Some(ErrInvalidStateTransition), [];
    }

    /** Process touches no session but the one it is called for, and that one as ProcessSpec says. */
    method Process(authCtxID: string, call: Call) returns (reply: Reply, sends: seq<Send>)
      requires sessions.Valid() && sessions.ttl == env.ttl
      modifies sessions, sessions.sessions.Values
      ensures sessions.Valid() && sessions.sessions == old(sessions.sessions)
      ensures forall id | id in sessions.sessions && id != authCtxID ::
                sessions.sessions[id].View() == old(sessions.sessions[id].View())
      ensures authCtxID !in sessions.sessions ==> reply == Reply(None, AuthFailure, Some(ErrSessionNotFound)) && sends == []
      ensures authCtxID in sessions.sessions ==>
                Outcome(sessions.sessions[authCtxID].View(), reply, sends)
                == ProcessSpec(env, old(sessions.sessions[authCtxID].View()), call)
    {
      hide Parse, AdvanceSpec;
      var found := sessions.Get(authCtxID, call.start);
      if found.None? {
        return Reply(None, AuthFailure, Some(ErrSessionNotFound)), [];
      }
      var session := found.value;
      if call.start - session.lastActivity > session.timeout {
        session.Mark(SessionState.TimedOut, call.start);
        sessions.Put(session);
        return Reply(None, AuthFailure, Some(ErrSessionTimeout)), [];
      }
      var parsed := Parse(call.payload);
      if parsed.Failure? {
        return Reply(None, AuthFailure, Some(ErrParse(parsed.error))), [];
      }
      var msgHash := env.hash(call.payload);
      var same := BytesEqual(session.lastNonce, msgHash);
      if same && session.cached.Some? {
        return Reply(session.cached, AuthPending, None), [];
      }
      var response, result, error;
      response, result, error, sends := AdvanceState(session, parsed.value, call);
      session.lastNonce := msgHash;
      session.lastActivity := call.finish;
      if response.Some? {
        session.cached := response;
      }
      sessions.Put(session);
      if error.Some? {
        return Reply(None, AuthFailure, error), sends;
      }
      return Reply(response, AuthResultOf(result), None), sends;
    }
  }
}
