# NSSAAF core: a Dafny model

The Network Slice-Specific Authentication and Authorization Function (NSSAAF) relays EAP between a 5G core and
AAA servers. This project models the parts of it where correctness is hard to see: two concurrent
request/response protocols of the AAA gateway, the EAP engine, EAP and RADIUS packet handling, the circuit
breaker, the alarm store and manager, the rate limiter, the dead-letter queues and the NRF retry delay.

`dafny verify dfyconfig.toml` checks everything. One module per component:

| module | component |
|---|---|
| `ServerInitiated`, `DiameterPending` | the gateway's registry of server-initiated requests; its hop-by-hop pending table |
| `EapCodec`, `EapSession`, `EapEngine`, `EapFragment` | EAP packets, sessions and their store, the engine, fragmentation |
| `RadiusAttribute`, `RadiusMessageAuth` | RADIUS attributes, EAP-Message chunking, Message-Authenticator |
| `CircuitBreaker` | the breaker and its registry |
| `AlarmStore`, `AlarmManager`, `AlarmRaces` | alarms with deduplication; raising and clearing on events, one at a time and concurrently |
| `RateLimiter`, `RateRaces` | the sliding window, call by call and command by command |
| `DeadLetter`, `Backoff` | the two dead-letter queues, NRF retry delay |
| `Keys`, `Base` | composite map keys; byte strings and sequence facts |

## How to read it

Each component has a specification made of pure functions (`Next`, `ProcessSpec`, `AddSpec`, ...) and, where the
source mutates an object, a class whose methods are proved to compute exactly that function of the old state. The
theorems are about the specification: invariants of every run, histories, round trips, if-and-only-if conditions.

- Concurrent components are state machines. Each lock section, channel operation and timer choice is one step; a
  run is any interleaving of any number of goroutines.
- Clock readings, UUIDs, random numbers, AAA replies, and the outcome of each delivery or push are parameters.
- SHA-256 and HMAC-MD5 are arbitrary functions with 32-byte and 16-byte values; the failure rate is an arbitrary
  function of the two counters, which covers any floating-point rounding.
- Integer widths that matter are written out: 8-bit EAP identifiers, 16-bit fragment numbers and EAP lengths,
  32-bit byte counts and hop-by-hop identifiers, the 64-bit sequence counter and delay.
- A `requires` on an operation is a class invariant, an index or channel that exists, or the condition under which
  the Go code does not panic (a cut-short Message-Authenticator; something to cut and a non-positive size).

## Where the code differs from what one would expect

Each of these is a theorem with a concrete counterexample, an exact condition, or both.

- A registered request can lose its reply in two ways: another waiter's stale timer removes the registration by
  key (`StaleTimerLosesReply`), or its own timer wins before the reply is taken from the channel
  (`LateReplyLost`). These, and interference under the same key in general, are all there is
  (`WaiterGetsReplyIff`). The `default` branch of `Complete`, commented as the late-reply case, is never taken
  (`SendsNeverBlock`).
- The keys of two different requests coincide exactly when the longer message type is the shorter one behind some
  text and a colon, and the session ID of the shorter one is that of the longer one followed by a colon and that
  text (`JoinEqualIff`). For every two such types a response can end up in the wrong channel (`Misdelivered`).
- A Diameter Forward that took its identifier before a reconnect and enters the table after it is not woken
  (`LateForwardMissesClear`); which ones are is `ClearWakesIff` and `ReconnectReachesIff`. After 2^32 allocations a
  Forward can lose its entry to another (`EntryLostIff`) and, unless a handler that looked it up before still sends,
  is then cut off under every schedule (`OrphanAfterWrap`, exactly when in `OrphanedIff`).
- The handler of a Diameter answer can block for ever on a channel nobody reads any more (`DoomedHandler`); exactly
  which ones do is `HandlerCanSendIff`.
- The alarm manager releases its lock while it looks at the stored alarms. A breaker reported closed in that gap
  leaves its alarm up, and further reports that it is closed do not clear it (`ClosedInsideGap`, `LateAlarmStays`);
  `AlarmMirrorsIff` says exactly when the alarm is wrong. A breaker without a name can get two alarms
  (`NeverTwiceIff`).
- A message that failed overwrites the retry nonce but not the cached reply, so its repeat gets an older message's
  reply (`RejectedRepeatGetsOlderReply`).
- `AddMessageAuthenticator`, when it appends, hashes the packet without the attribute, so the result need not verify
  (`AppendedNeedNotVerify`); exactly when it does, for every packet, is `AppendedVerifiesExactly`.
- `SetTotalLength` is documented for use before any data, but the code also accepts it after empty fragments. A
  buffer that completes early, with more fragments announced, does not check for overflow (`PayloadIff`).
- Reassembly of 65536 or more fragments loses those before the last wrap of the counter (`PayloadIsWholeIff`,
  `SplitThenReassemble`).
- Requests in the same millisecond count once, so any number can be admitted (`SameMillisecondAllAdmitted`). The
  settings for which the limit holds of requests are those of `CallsBoundedIff`.
- The limiter's commands are pipelined but not a transaction. Two calls that count before either adds are both
  admitted (`BothCountFirst`); inside a window the limit holds exactly when no two calls overlap (`LimitHoldsIff`).
- A notification that used up its direct attempts is queued with no attempts left and is never offered again,
  unless its limit is not positive (`ExhaustedNotificationRetriedIff`, `ExhaustedNotificationOfferedIff`); one without a limit can be retried forever, so a queue is sure
  to drain exactly when it holds none (`DrainsIff`).
- `exponentialBackoff` is documented with ±10% jitter, but the code adds between 0 and 20%.

## Model

| member | source | states |
|---|---|---|
| `Keys.JoinInjective` | internal/aaa/gateway/server_initiated.go:74-76 | Two joined keys are equal only for equal parts, unless one right part ends in a colon followed by the other |
| `Keys.JoinAmbiguous` | internal/aaa/gateway/server_initiated.go:74-76 | Conversely, whenever one right part ends in a colon followed by the other, some left parts give the same key |
| `Keys.JoinEqualIff` | internal/aaa/gateway/server_initiated.go:74-76 | For right parts of different length the exact condition on all four parts under which two keys are equal |
| `Keys.JoinEqualLength` | internal/aaa/gateway/server_initiated.go:74-76 | For right parts of equal length the keys are equal only for equal parts |
| `Keys.DecimalInjective` | internal/eap/fragment.go:171-173 | Different numbers have different decimal forms |
| `Keys.DecimalKeyInjective` | internal/eap/fragment.go:171-173 | A key made of any string, a colon and a decimal number determines both |
| `ServerInitiated.InvStep` | internal/aaa/gateway/server_initiated.go:41-149 | Every step of every goroutine keeps the registry invariant |
| `ServerInitiated.InvRun` | internal/aaa/gateway/server_initiated.go:41-149 | The invariant holds at every point of every interleaving |
| `ServerInitiated.RegistrySafety` | internal/aaa/gateway/server_initiated.go:41-149 | At every point of every interleaving: each entry sits under its own channel's key, a channel whose Wait has returned is not in the map, and no channel has been sent more than one response |
| `ServerInitiated.SendsNeverBlock` | internal/aaa/gateway/server_initiated.go:103-110 | At every point of every interleaving: every outstanding duplicate reply can be sent at once, and every channel in the map has a free slot, so Complete never takes its default branch |
| `ServerInitiated.ResponsesReachTheirOwnRequest` | internal/aaa/gateway/server_initiated.go:119-137 | In every run, a response given to Complete(s, m) is only ever sent on a channel registered for that s and m, unless one message type ends in a colon and the other |
| `ServerInitiated.MisdeliveredOnlyIf` | internal/aaa/gateway/server_initiated.go:119-137 | In every run, a response in a channel was given to Complete for that channel's own request, or for one whose type and session differ from it by exactly one shifted colon |
| `ServerInitiated.Misdelivered` | internal/aaa/gateway/server_initiated.go:74-137 | For every two message types of which one is the other behind a colon, a run that puts the response to one request into the channel of the other |
| `ServerInitiated.WaitReturns` | internal/aaa/gateway/server_initiated.go:41-55 | In every run, a Wait that has returned left by exactly one exit: by its timer with the timeout response, or by receiving, with the one response sent on its channel |
| `ServerInitiated.WaitRun` | internal/aaa/gateway/server_initiated.go:41-55 | At every point of every run the progress of a Wait agrees with which of its two exits the schedule has taken |
| `ServerInitiated.HoldsStep` | internal/aaa/gateway/server_initiated.go:80-149 | One step leaves a channel registered under a key exactly when the step does not register, complete, expire or time out that key |
| `ServerInitiated.HoldsRun` | internal/aaa/gateway/server_initiated.go:80-149 | Over any stretch of a run a channel stays registered exactly when no step of the stretch touches its key |
| `ServerInitiated.DeliveredIffUndisturbed` | internal/aaa/gateway/server_initiated.go:80-149 | A Complete puts its response into the channel of an earlier successful Register of the same key if and only if nothing in between registered, completed, expired or timed out that key |
| `ServerInitiated.WaiterGetsReplyIff` | internal/aaa/gateway/server_initiated.go:41-149 | A returned Wait took the response of a given Complete if and only if nothing touched the key between Register and that Complete and the waiter's own timer never won; it then returned exactly that response |
| `ServerInitiated.DuplicateIsAnswered` | internal/aaa/gateway/server_initiated.go:100-111 | In every run, a request registered under a key that is taken is in no entry from then on, and at every later point either still has the duplicate reply coming or has been sent exactly that |
| `ServerInitiated.DuplicateWaitReturns` | internal/aaa/gateway/server_initiated.go:41-111 | In every run, the Wait of such a request, once returned, gave the duplicate response if its timer never won and the timeout response otherwise |
| `ServerInitiated.EvictedIsForgotten` | internal/aaa/gateway/server_initiated.go:100-111 | In every run, the request that held the key is never in the map again, owed nothing and sent nothing |
| `ServerInitiated.ChannelKeepsRequest` | internal/aaa/gateway/server_initiated.go:87-95 | At every later point of every run a channel has the session, authorization context and message type it was registered with |
| `ServerInitiated.StaleTimerLosesReply` | internal/aaa/gateway/server_initiated.go:142-149 | A run in which an answered waiter's late timer removes a second registration under the same key; the reply to the second request is dropped while its waiter still waits |
| `ServerInitiated.LateReplyLost` | internal/aaa/gateway/server_initiated.go:41-55 | A run in which the reply reaches the channel undisturbed, but after the waiter's timer has won, and Wait returns the timeout response |
| `ServerInitiated.ServerInitiatedRegistry.constructor` | internal/aaa/gateway/server_initiated.go:66-71 | A new registry is the initial state of the machine |
| `ServerInitiated.ServerInitiatedRegistry.Register` | internal/aaa/gateway/server_initiated.go:80-115 | Registers a new channel, or evicts the entry of the key and owes the new channel a duplicate reply; keeps the invariant |
| `ServerInitiated.ServerInitiatedRegistry.Complete` | internal/aaa/gateway/server_initiated.go:119-137 | Removes the entry of the key and sends on its channel, or does nothing; adds and redirects no entry; keeps the invariant |
| `ServerInitiated.ServerInitiatedRegistry.Expire` | internal/aaa/gateway/server_initiated.go:142-149 | Removes whatever is under the key; keeps the invariant |
| `ServerInitiated.ServerInitiatedRegistry.SendDuplicate` | internal/aaa/gateway/server_initiated.go:104-109 | The detached goroutine's send, which always finds the slot free; keeps the invariant |
| `ServerInitiated.ServerInitiatedRegistry.Wait` | internal/aaa/gateway/server_initiated.go:41-55 | Returns the response in the slot, or, when the timer wins, expires its key and returns the timeout response; keeps the invariant |
| `DiameterPending.InvStep` | internal/aaa/gateway/diameter_forward.go:320-332 | Every step of every Forward, answer handler and reconnect keeps the table invariant |
| `DiameterPending.InvRun` | internal/aaa/gateway/diameter_forward.go:474-524 | The invariant holds at every point of every interleaving |
| `DiameterPending.RepliesCarryOwnIdentifier` | internal/aaa/gateway/diameter_forward.go:474-524 | In every interleaving, a non-nil message a Forward receives carries that Forward's own hop-by-hop identifier, although lookup and send are separate steps |
| `DiameterPending.ReceivedHasCause` | internal/aaa/gateway/diameter_forward.go:474-524 | In every run, a message a Forward has received is, body and all, one that was looked up while the Forward was the entry of its identifier, and a nil comes from a reconnect while it was in the table |
| `DiameterPending.SentStays` | internal/aaa/gateway/diameter_forward.go:509-524 | In every run, what a handler sends is in the Forward's slot, unchanged, until the Forward takes it |
| `DiameterPending.SentIsReceived` | internal/aaa/gateway/diameter_forward.go:474-524 | In every run, a Forward that receives after a handler has sent has received exactly the handler's message, from then on |
| `DiameterPending.LeavesAtMostTwice` | internal/aaa/gateway/diameter_forward.go:412-478 | In every run a Forward calls removePending not at all during its wait, at most once after a reply and at most twice after giving up |
| `DiameterPending.IdentifierClash` | internal/aaa/gateway/diameter_forward.go:568-570 | In every run, two allocations have equal identifiers if and only if their distance is a multiple of 2^32 |
| `DiameterPending.ClearWakesEveryEntry` | internal/aaa/gateway/diameter_forward.go:320-332 | Every Forward in the table when clearPending runs has something to receive at every later point, until it has received it or given up |
| `DiameterPending.EntryStep` | internal/aaa/gateway/diameter_forward.go:590-600 | One step leaves a Forward in the table exactly when it does not enter or remove anything under its identifier or clear the table |
| `DiameterPending.EntryRun` | internal/aaa/gateway/diameter_forward.go:590-600 | Over any stretch of a run a Forward stays in the table exactly when no step of the stretch does so |
| `DiameterPending.ClearWakesIff` | internal/aaa/gateway/diameter_forward.go:320-332 | After clearPending a Forward has something to receive if and only if it had before or is in the table; one that is not in the table, in particular one that has not entered it yet, is left as it was |
| `DiameterPending.ReconnectReachesIff` | internal/aaa/gateway/diameter_forward.go:320-332 | In every run, a reconnect wakes a Forward that entered earlier if and only if it had something to receive or nothing was entered or removed under its identifier in between |
| `DiameterPending.WaitStartsEmpty` | internal/aaa/gateway/diameter_forward.go:404-413 | In every run a Forward starts its wait in the table with nothing to receive, whatever reconnects came before |
| `DiameterPending.ReachableStep` | internal/aaa/gateway/diameter_forward.go:404-413 | One step never cuts a waiting Forward off from its table entry unless another Forward with the same identifier enters or leaves |
| `DiameterPending.EntryLostIff` | internal/aaa/gateway/diameter_forward.go:404-600 | In every run, a Forward waits with nothing to receive and without a table entry if and only if it waits with an empty slot and another Forward with its identifier has entered or left the table since it entered |
| `DiameterPending.NoEntryLost` | internal/aaa/gateway/diameter_forward.go:404-413 | In every run with at most 2^32 allocations no Forward loses its entry before it has something to receive |
| `DiameterPending.CanReceiveIff` | internal/aaa/gateway/diameter_forward.go:474-524 | Under some schedule a waiting Forward still receives if and only if its slot is full, it is in the table, or a handler that looked it up has not sent yet |
| `DiameterPending.LostForGood` | internal/aaa/gateway/diameter_forward.go:474-524 | A Forward with an empty slot, no entry and no handler still to send receives under no schedule |
| `DiameterPending.OrphanedIff` | internal/aaa/gateway/diameter_forward.go:404-600 | In every run, a waiting Forward receives under no schedule whatever if and only if it has nothing to receive, another Forward with its identifier has entered or left the table since it entered, and no handler that looked it up is still to send |
| `DiameterPending.NoForwardOrphaned` | internal/aaa/gateway/diameter_forward.go:404-413 | In every run with at most 2^32 allocations every waiting Forward still receives under some schedule |
| `DiameterPending.OrphanAfterWrap` | internal/aaa/gateway/diameter_forward.go:568-600 | A run with 2^32 + 1 allocations after which the first Forward waits and receives under no schedule: the bound is sharp |
| `DiameterPending.LateForwardMissesClear` | internal/aaa/gateway/diameter_forward.go:404-413 | A run in which a Forward enters the table just after clearPending and is left waiting with nothing to receive |
| `DiameterPending.HandlerCanSendIff` | internal/aaa/gateway/diameter_forward.go:509-524 | In every reachable state, a handler that has not sent yet can still send under some schedule if and only if its slot is free or its Forward still waits |
| `DiameterPending.DoomedForGood` | internal/aaa/gateway/diameter_forward.go:509-524 | A handler whose slot is full and whose Forward is past its wait never sends, under any schedule |
| `DiameterPending.DoomedHandler` | internal/aaa/gateway/diameter_forward.go:320-332 | A run that leads to such a handler: its Forward gives up and a reconnect fills the slot before the Forward leaves the table |
| `DiameterPending.TruncatedSequence` | internal/aaa/gateway/diameter_forward.go:568-570 | The 64-bit counter wraps without disturbing the 32-bit identifiers taken from it |
| `DiameterPending.DiamForwarder.constructor` | internal/aaa/gateway/diameter_forward.go:139-153 | A new forwarder has an empty table and a zero counter: the initial state of the machine |
| `DiameterPending.DiamForwarder.NextHopByHopID` | internal/aaa/gateway/diameter_forward.go:568-570 | The n-th allocation is n modulo 2^32; keeps the invariant |
| `DiameterPending.DiamForwarder.Enter` | internal/aaa/gateway/diameter_forward.go:590-594 | Enters the Forward under its identifier, replacing any older entry; keeps the invariant |
| `DiameterPending.DiamForwarder.Await` | internal/aaa/gateway/diameter_forward.go:474-493 | Takes the reply from the slot, or leaves on cancellation; a non-nil reply carries the Forward's own identifier; keeps the invariant |
| `DiameterPending.DiamForwarder.Leave` | internal/aaa/gateway/diameter_forward.go:596-600 | Removes whatever is under the Forward's identifier, once after a reply and at most twice after giving up; keeps the invariant |
| `DiameterPending.DiamForwarder.HandleDEA` | internal/aaa/gateway/diameter_forward.go:509-524 | Finds the channel for an answer's identifier, or drops the answer; keeps the invariant |
| `DiameterPending.DiamForwarder.Send` | internal/aaa/gateway/diameter_forward.go:509-524 | The handler's send on the channel it found earlier; keeps the invariant |
| `DiameterPending.DiamForwarder.WakeEntries` | internal/aaa/gateway/diameter_forward.go:323-328 | The first loop of clearPending puts nil into exactly the free slots of the channels in the table |
| `DiameterPending.DiamForwarder.Clear` | internal/aaa/gateway/diameter_forward.go:320-332 | Puts nil into every free slot of a channel in the table without blocking, by a loop over the entries, and empties the table; keeps the invariant |
| `EapCodec.Encode` | internal/eap/codec.go:87-114 | The buffer filled in place is the wire form of the packet, cut off at 65535 bytes |
| `EapCodec.ParseIff` | internal/eap/codec.go:38-83 | The wire format byte by byte: exactly which byte strings parse, into which fields, and which are refused for their length |
| `EapCodec.ParseEncoding` | internal/eap/codec.go:38-114 | For every packet with a known code, parsing its encoding gives the packet with its true length and with data cut off at 65535 bytes; with an unknown code it is rejected |
| `EapCodec.RoundTripIffFits` | internal/eap/codec.go:87-114 | The data survive the round trip if and only if the packet fits in 65535 bytes |
| `EapCodec.EncodingOfParse` | internal/eap/codec.go:38-83 | Every byte string that parses is the encoding of what it parses to |
| `EapSession.Session.constructor` | internal/eap/session.go:116-128 | A new session is in Init, with no rounds, no cached reply and the given limits |
| `EapSession.Session.Mark` | internal/eap/session.go:174-189 | Moves to a terminal state and records the time, and changes nothing else |
| `EapSession.BytesEqual` | internal/eap/engine_client.go:19-28 | The accumulated difference is zero if and only if the byte strings are equal |
| `EapSession.SessionManager.constructor` | internal/eap/engine_client.go:39-44 | A new store is empty and has the given time-to-live |
| `EapSession.SessionManager.Get` | internal/eap/engine_client.go:47-62 | The stored session, unless it is missing or past its time-to-live |
| `EapSession.SessionManager.Put` | internal/eap/engine_client.go:65-70 | Stores the session under its own ID and leaves the rest alone |
| `EapSession.SessionManager.Delete` | internal/eap/engine_client.go:73-78 | Removes exactly that ID |
| `EapSession.SessionManager.Cleanup` | internal/eap/engine_client.go:104-117 | Keeps exactly the sessions that have not expired, counts the others, and changes the result of no lookup now or later |
| `EapEngine.RunInvariant` | internal/eap/engine.go:161-368 | The counters and the answers agree with the history of AAA exchanges after every sequence of Process calls |
| `EapEngine.RoundsAreBounded` | internal/eap/engine.go:161-368 | For every sequence of calls with an AAA client set: the number of SendEAP calls equals Rounds and never exceeds the limit (one, if the limit is below one), COMPLETING is never reached, and the identifiers of the packets sent are consecutive modulo 256 |
| `EapEngine.NothingSentWithoutClient` | internal/eap/engine.go:371-395 | Without an AAA client nothing is ever sent or cached, and success is never returned |
| `EapEngine.CacheIsLastAcceptedReply` | internal/eap/engine.go:191-230 | After every sequence of calls, CachedResponse is the last AAA reply the engine accepted, and the message the last call returned, if any, equals it |
| `EapEngine.MessageIsCached` | internal/eap/engine.go:191-230 | From any session state, a message that Process returns is the cached response afterwards |
| `EapEngine.SuccessAtMostOnce` | internal/eap/engine.go:314-357 | For every sequence of calls: success is returned at most once, exactly when the last exchange brought an accepted EAP-Success; the session is then Done or has idled out; and Done implies a cached EAP-Success |
| `EapEngine.SuccessIff` | internal/eap/engine.go:288-357 | From any state, a call returns success if and only if the session is in EAP_EXCHANGE, the packet is no retry, carries the expected identifier and comes before the last round is used, a client is set, and the reply parses as EAP-Success; this is also the only way to become Done |
| `EapEngine.EndsIff` | internal/eap/engine.go:161-368 | From a live state, the exact conditions, all known before the call or given by the AAA reply, under which a call ends in Timeout, Done or Failed |
| `EapEngine.AnswersWithMessage` | internal/eap/engine.go:161-230 | From every state: a repeat is answered with the cached reply as pending, a reply passed on unread as pending, and a later reply as success, failure or pending by its code, each with the message itself and no error |
| `EapEngine.AnswersWithError` | internal/eap/engine.go:161-230 | From every state: in every other case, and only then, there is an error, with no message and the result failure |
| `EapEngine.ErrorsBeforeTheState` | internal/eap/engine.go:161-189 | Which error is returned for a session that is gone or idle and for an unreadable payload |
| `EapEngine.ErrorsByState` | internal/eap/engine.go:233-395 | Exactly which error each guard of each state returns |
| `EapEngine.ResultIff` | internal/eap/engine.go:436-449 | From every state: failure exactly with an error or on a forwarded packet answered with EAP-Failure, pending exactly on a repeat, a reply passed on unread, or a later reply that is neither success nor failure |
| `EapEngine.CountersAfter` | internal/eap/engine.go:259-312 | From every state: the rounds and the expected identifier move, and the packet is sent, exactly when it starts the session, continues the exchange or is passed on |
| `EapEngine.SessionAfter` | internal/eap/engine.go:202-216 | From every state: what a call does to the EAP method, the nonce and the last activity, and that nothing else moves |
| `EapEngine.ActivityRun` | internal/eap/engine.go:168-216 | After every sequence of calls the last activity is the end of the last call that reached the state machine, or when the session was found idle or created |
| `EapEngine.IdlesOutIff` | internal/eap/engine.go:161-179 | After every sequence of calls: the session is gone exactly when it was created more than the time-to-live ago, and idles out exactly when it was last active more than the timeout ago |
| `EapEngine.UnstartedIsBlank` | internal/eap/engine.go:259-285 | After every sequence of calls a session still in INIT has no rounds, expected identifier, cached reply or method |
| `EapEngine.NewSessionStarts` | internal/eap/engine.go:133-152 | A new session takes up, as round one, any readable Response that comes before it runs out |
| `EapEngine.TerminalStep` | internal/eap/engine.go:161-256 | From a terminal state a call sends nothing, keeps Rounds, ExpectedID and CachedResponse, returns no success, and stays or moves to Timeout |
| `EapEngine.TerminalForever` | internal/eap/engine.go:161-256 | The same for every sequence of calls from a terminal state |
| `EapEngine.RetriesAreIdempotent` | internal/eap/engine.go:191-200 | After a call that returned message m for a payload, any number of prompt repeats of the payload each return m as PENDING, send nothing and leave the session as it is |
| `EapEngine.RejectedRepeatGetsOlderReply` | internal/eap/engine.go:191-213 | After a call that failed, a prompt repeat gets the reply cached for an earlier message if there is one, and is processed afresh if there is none |
| `EapEngine.ProcessCases` | internal/eap/engine.go:161-256 | Every call from a reachable state is one of three: quiet, the first exchange, or a later exchange |
| `EapEngine.ExchangeShape` | internal/eap/engine.go:288-357 | Every outcome of handleExchange either sends nothing or forwards the expected packet and counts one round |
| `EapEngine.Engine.constructor` | internal/eap/engine.go:79-100 | The engine has the given hash and client; zero rounds, timeout or time-to-live are replaced by the defaults; the store is new and empty |
| `EapEngine.Engine.StartSession` | internal/eap/engine.go:133-152 | Refuses an empty ID; otherwise stores a new Init session under the ID |
| `EapEngine.Engine.Forward` | internal/eap/engine.go:371-395 | Sends the encoded packet, or fails when there is no client |
| `EapEngine.Engine.HandleInit` | internal/eap/engine.go:259-285 | Forwards an identity response, takes its identifier as the start of the sequence, and never ends the session |
| `EapEngine.Engine.HandleExchange` | internal/eap/engine.go:288-357 | Checks identifier and rounds, forwards, and follows the code of the reply |
| `EapEngine.Engine.HandleCompleting` | internal/eap/engine.go:360-368 | Forwards and answers as pending |
| `EapEngine.Engine.AdvanceState` | internal/eap/engine.go:233-256 | Dispatches on the session state |
| `EapEngine.Engine.Process` | internal/eap/engine.go:161-230 | One call changes only its own session, which moves as the specification of a call says; unknown IDs are refused |
| `EapFragment.InvApply` | internal/eap/fragment.go:59-109 | Every operation keeps the agreement between the buffer and the list of fragments it accepted |
| `EapFragment.InvRun` | internal/eap/fragment.go:59-109 | The agreement holds after every sequence of operations |
| `EapFragment.BufferHoldsAccepted` | internal/eap/fragment.go:59-99 | After every sequence of operations: the counter and the byte count are those of the accepted fragments modulo 2^16 and 2^32, and below 65536 fragments the stored keys are exactly 0 up to the count, each with its own fragment |
| `EapFragment.RejectedFragmentInvisible` | internal/eap/fragment.go:60-67 | A fragment out of order, or after completion, is rejected and leaves no mark: every run with it ends as the run without it |
| `EapFragment.PayloadIsTail` | internal/eap/fragment.go:59-136 | Any payload returned is the in-order concatenation of the accepted fragments since the counter last wrapped |
| `EapFragment.PayloadIsWholeIff` | internal/eap/fragment.go:59-136 | The payload is the concatenation of all accepted fragments if and only if those before the last wrap are empty, as they are below 65536 fragments |
| `EapFragment.PayloadIff` | internal/eap/fragment.go:59-99 | The exact condition under which adding a fragment returns a payload, early completion included |
| `EapFragment.AnswersExactly` | internal/eap/fragment.go:59-99 | After every sequence of operations, the exact condition for each answer of AddFragment other than a payload |
| `EapFragment.CompleteIffPayload` | internal/eap/fragment.go:86-95 | After every sequence of operations, a buffer becomes complete exactly when it returns a payload |
| `EapFragment.CompleteUntilReset` | internal/eap/fragment.go:60-62 | Once a payload has been returned, every further fragment is rejected until the buffer is reset, whatever else happens |
| `EapFragment.ReassemblesIffComplete` | internal/eap/fragment.go:113-136 | After every sequence of operations, reassembling is refused until the buffer is complete and then gives the accepted fragments since the last wrap |
| `EapFragment.OtherOperations` | internal/eap/fragment.go:103-145 | After every sequence of operations, a declared length counts exactly while nothing has been received, and a reset buffer is a new one |
| `EapFragment.SplitPacket` | internal/eap/fragment.go:245-274 | The fragments are the chunks of the packet in order, numbered modulo 2^16, all but the last announcing more; an empty packet and a negative size give none |
| `EapFragment.SplitThenReassemble` | internal/eap/fragment.go:59-274 | For every packet and fragment size, with or without the true length declared: feeding the fragments yields nothing until the last, which yields a payload; it is the packet if and only if there are at most 65535 fragments |
| `EapFragment.KeysAreDistinct` | internal/eap/fragment.go:171-173 | Different (session, identifier) pairs have different buffer keys |
| `EapFragment.FragmentBuffer.constructor` | internal/eap/fragment.go:45-54 | A new buffer is empty |
| `EapFragment.FragmentBuffer.AddFragment` | internal/eap/fragment.go:59-99 | The buffer and the answer are those of the specification on which the theorems above rest |
| `EapFragment.FragmentBuffer.SetTotalLength` | internal/eap/fragment.go:103-109 | Sets the length while no byte has been received, and otherwise changes nothing |
| `EapFragment.FragmentBuffer.Reassemble` | internal/eap/fragment.go:113-136 | The two loops return the stored fragments in order, or the error for an incomplete buffer or a missing number |
| `EapFragment.FragmentBuffer.Reset` | internal/eap/fragment.go:139-145 | The buffer is empty again |
| `EapFragment.FragmentManager.constructor` | internal/eap/fragment.go:162-168 | A new manager holds no buffer |
| `EapFragment.FragmentManager.GetOrCreate` | internal/eap/fragment.go:176-188 | Returns the buffer of exactly that session and identifier, a new empty one if and only if there was none |
| `EapFragment.FragmentManager.Delete` | internal/eap/fragment.go:199-204 | Removes the buffer of that session and identifier only |
| `RadiusAttribute.DecodeAttributes` | internal/radius/attribute.go:94-123 | The loop reads the longest run of well-formed attributes, and succeeds if and only if nothing is left over |
| `RadiusAttribute.EncodeAttributes` | internal/radius/attribute.go:127-138 | The loop concatenates the wire forms, with the length byte modulo 256 |
| `RadiusAttribute.PrefixAndRest` | internal/radius/attribute.go:94-138 | For every byte string, encoding the attributes read and appending what was not read gives the string back |
| `RadiusAttribute.PrefixFits` | internal/radius/attribute.go:94-123 | Every attribute read has at most 253 value bytes, and what is left does not start with a well-formed attribute |
| `RadiusAttribute.EncodeInvertsDecode` | internal/radius/attribute.go:94-138 | Encoding inverts decoding on every input that decodes |
| `RadiusAttribute.PrefixOfEncoded` | internal/radius/attribute.go:94-138 | An encoded list followed by anything reads back as the list followed by what reads from the rest |
| `RadiusAttribute.DecodeInvertsEncodeIff` | internal/radius/attribute.go:94-138 | Decoding inverts encoding if and only if every value has at most 253 bytes |
| `RadiusAttribute.IndexOf` | internal/radius/attribute.go:166-173 | The index of the first attribute of a type, or the length of the list |
| `RadiusAttribute.GetAttribute` | internal/radius/attribute.go:166-173 | The first attribute of the type, or none |
| `RadiusAttribute.FragmentEAPMessage` | internal/radius/attribute.go:212-226 | The loop cuts the payload into full chunks and a remainder; a payload that fits is one chunk, and an empty one with a negative size gives none |
| `RadiusAttribute.AssembleEAPMessage` | internal/radius/attribute.go:229-237 | The concatenation of the EAP-Message values, in order |
| `RadiusAttribute.ValuesInOrder` | internal/radius/attribute.go:229-237 | The values put together are those of the EAP-Message attributes, all of them, the k-th of the k-th |
| `RadiusAttribute.EapMessageRoundTrip` | internal/radius/attribute.go:94-237 | Chunks of at most 253 bytes wrapped as EAP-Message between any other attributes that fit, encoded, decoded and reassembled, give the payload |
| `RadiusAttribute.EapOverRadius` | internal/radius/attribute.go:212-237 | For every payload and other attributes of at most 253 bytes in any arrangement: the list survives encoding and decoding if and only if the chunks have at most 253 bytes, and reassembling it gives the payload |
| `RadiusAttribute.ExtractSessionID` | internal/aaa/gateway/radius_handler.go:216-235 | The scanner returns the first State value among the attributes the decoder would read, or empty, on every packet |
| `RadiusMessageAuth.FindMessageAuthenticator` | internal/radius/message_auth.go:12-26 | The scanning loop computes the offset that the recursive search defines |
| `RadiusMessageAuth.ScanIsLookup` | internal/radius/message_auth.go:12-26 | On every byte string, scanning in place agrees with decoding as far as possible and looking the attribute up |
| `RadiusMessageAuth.FindIsLookup` | internal/radius/message_auth.go:12-26 | On every packet whose attributes decode, the offset is 20 plus the encoded size of the attributes before the first type-80 one, or -1 exactly when there is none |
| `RadiusMessageAuth.ScanSamePrefix` | internal/radius/message_auth.go:12-26 | The search depends only on the bytes up to the header it finds |
| `RadiusMessageAuth.ZeroMessageAuthenticator` | internal/radius/message_auth.go:34-46 | A copy with the value bytes that exist zeroed, or an unchanged copy |
| `RadiusMessageAuth.ZeroedExactly` | internal/radius/message_auth.go:34-46 | On every packet exactly the value bytes that exist behind the header found are zero, and every other byte is unchanged |
| `RadiusMessageAuth.ComputeMessageAuthenticator` | internal/radius/message_auth.go:51-57 | The MAC of the zeroed packet |
| `RadiusMessageAuth.VerifyMessageAuthenticator` | internal/radius/message_auth.go:61-90 | True exactly when sixteen value bytes are inside the packet and equal the computed ones |
| `RadiusMessageAuth.AddMessageAuthenticator` | internal/radius/message_auth.go:93-120 | Overwrites the value in place when there is one, and appends an attribute when there is none |
| `RadiusMessageAuth.RemoveMessageAuthenticator` | internal/radius/message_auth.go:123-133 | Cuts out as many bytes as the attribute's length byte says, or copies the packet |
| `RadiusMessageAuth.AddThenVerify` | internal/radius/message_auth.go:61-120 | With a complete attribute inside the packet, adding changes only its sixteen value bytes, makes verification succeed, and is idempotent |
| `RadiusMessageAuth.VerifyIff` | internal/radius/message_auth.go:61-120 | A packet with a complete attribute verifies if and only if adding leaves it as it is |
| `RadiusMessageAuth.RemoveDropsAttribute` | internal/radius/message_auth.go:123-133 | On every encoded list, removing drops exactly the first Message-Authenticator |
| `RadiusMessageAuth.AddReplacesAttribute` | internal/radius/message_auth.go:93-120 | On every encoded list with a 16-byte Message-Authenticator, adding re-encodes the list with that value replaced |
| `RadiusMessageAuth.RemoveUndoesAddIff` | internal/radius/message_auth.go:93-133 | On every packet without the attribute, removing undoes adding if and only if the packet has a header and its attributes decode |
| `RadiusMessageAuth.AppendedVerifiesIff` | internal/radius/message_auth.go:110-119 | For every packet that decodes and has no attribute: an appended one verifies if and only if the MAC of the packet equals the MAC of the packet with the zeroed attribute |
| `RadiusMessageAuth.AppendedVerifiesExactly` | internal/radius/message_auth.go:61-120 | For every packet without the attribute: the appended one verifies if and only if the packet decodes and the two MACs agree, or all that does not decode is a lone byte 80 and the value read one byte early agrees with its MAC |
| `RadiusMessageAuth.AppendedNeedNotVerify` | internal/radius/message_auth.go:110-119 | For every packet without the attribute there is a MAC under which the appended one does not verify |
| `CircuitBreaker.CountersAgree` | internal/resilience/circuit_breaker.go:71-126 | In every run, a closed breaker's failure count is the number of failures since it closed or last succeeded, a half-open one's success count is the number since the probe began, and both stay below their thresholds |
| `CircuitBreaker.ClosedOpensExactlyAtThreshold` | internal/resilience/circuit_breaker.go:109-126 | In every run, a step takes a closed breaker to open if and only if it is the failure that completes the threshold |
| `CircuitBreaker.HalfOpenDecides` | internal/resilience/circuit_breaker.go:92-126 | In every run, a half-open breaker opens on any failure, closes exactly on the success that completes the threshold or on Reset, and otherwise stays |
| `CircuitBreaker.ShutSince` | internal/resilience/circuit_breaker.go:71-126 | In every run with a non-decreasing clock, after an opening and without Reset, the breaker is open or the recovery timeout has passed |
| `CircuitBreaker.NothingAllowedBeforeRecovery` | internal/resilience/circuit_breaker.go:71-89 | In every run with a non-decreasing clock, no Allow succeeds before the opening plus the recovery timeout unless Reset intervened |
| `CircuitBreaker.OpenSinceLastOpening` | internal/resilience/circuit_breaker.go:71-89 | While a breaker has been open since an opening, that opening is its openedAt, and Allow succeeds exactly from the recovery time on |
| `CircuitBreaker.OpenDecides` | internal/resilience/circuit_breaker.go:71-126 | In every run, a breaker open since an opening is closed by a reset, made half-open by an Allow from the recovery time on, and moved by nothing else |
| `CircuitBreaker.AllowAnswers` | internal/resilience/circuit_breaker.go:71-89 | In every run, Allow answers yes exactly when it leaves the breaker other than open, and always for a closed or half-open one |
| `CircuitBreaker.ProbeClosesExactlyAtThreshold` | internal/resilience/circuit_breaker.go:78-106 | In every run, from the Allow that starts a probe and as long as no failure and no reset comes, the breaker is half-open until the successes since reach the threshold and closed from then on |
| `CircuitBreaker.FailuresOpenExactlyAtThreshold` | internal/resilience/circuit_breaker.go:109-126 | In every run, a breaker that is new or was closed by a success or a reset is closed until the failures since reach the threshold, and then open |
| `CircuitBreaker.ResetForgets` | internal/resilience/circuit_breaker.go:158-164 | In every run, a breaker goes on after a reset exactly as a new one would, whatever comes |
| `CircuitBreaker.DefaultSettings` | internal/resilience/circuit_breaker.go:52-61 | Settings left at zero stand for five failures, thirty seconds and three successes; others are kept |
| `CircuitBreaker.GetKeepsInv` | internal/resilience/circuit_breaker.go:196-212 | Every lock section of Get keeps the registry invariant |
| `CircuitBreaker.RegistryInvRun` | internal/resilience/circuit_breaker.go:196-212 | The invariant holds after every interleaving of lock sections |
| `CircuitBreaker.OneBreakerPerKey` | internal/resilience/circuit_breaker.go:196-212 | In every interleaving, two callers are given the same breaker if and only if they asked for the same key, and no breaker created is ever lost |
| `CircuitBreaker.GetReturns` | internal/resilience/circuit_breaker.go:196-212 | After any interleaving a new Get can run: its first section gives it the breaker that is there, and otherwise its second gives it one under its key |
| `CircuitBreaker.WriteLockedReturns` | internal/resilience/circuit_breaker.go:204-212 | From any state the write-locked section ends the call with what is under its key by then, and creates nothing if something was |
| `CircuitBreaker.Circuit.constructor` | internal/resilience/circuit_breaker.go:52-68 | A new breaker is closed with zero counters; zero settings become defaults |
| `CircuitBreaker.Circuit.Allow` | internal/resilience/circuit_breaker.go:71-89 | The decision and the new state of one Allow step |
| `CircuitBreaker.Circuit.RecordSuccess` | internal/resilience/circuit_breaker.go:92-106 | The new state of one RecordSuccess step |
| `CircuitBreaker.Circuit.RecordFailure` | internal/resilience/circuit_breaker.go:109-126 | The new state of one RecordFailure step |
| `CircuitBreaker.Circuit.Reset` | internal/resilience/circuit_breaker.go:158-164 | The breaker is closed with zero counters |
| `CircuitBreaker.Registry.constructor` | internal/resilience/circuit_breaker.go:177-193 | A new registry is empty; zero settings become defaults |
| `CircuitBreaker.Registry.GetOrCreate` | internal/resilience/circuit_breaker.go:204-212 | Rechecks under the write lock: an existing breaker is returned, otherwise a new closed one is stored |
| `CircuitBreaker.Registry.Get` | internal/resilience/circuit_breaker.go:196-212 | Returns the breaker that is under the key afterwards, the old one if there was one, and changes no other key |
| `AlarmStore.SaveKeepsInvIff` | internal/nrm/alarm.go:48-92 | Saving keeps alarms and deduplication entries in one-to-one agreement if and only if it is suppressed or its ID does not displace a deduplicated alarm of another key |
| `AlarmStore.SaveBreaksInv` | internal/nrm/alarm.go:68-91 | Reusing the ID of a deduplicated alarm of another key breaks the agreement |
| `AlarmStore.ClearKeepsInv` | internal/nrm/alarm.go:119-133 | Clearing keeps the agreement |
| `AlarmStore.AckKeepsInv` | internal/nrm/alarm.go:143-157 | Acknowledging keeps the agreement, the deduplication table and the set of alarms |
| `AlarmStore.AlwaysFiled` | internal/nrm/alarm.go:48-157 | Whatever IDs are used, every alarm stays stored under its own ID with an event time |
| `AlarmStore.OneAlarmPerKey` | internal/nrm/alarm.go:48-92 | Under the agreement no (type, non-empty object) has two alarms |
| `AlarmStore.MachineInvStep` | internal/nrm/alarm.go:57-91 | Every lock section of any number of concurrent savers, clearers and acknowledgers keeps the agreement |
| `AlarmStore.MapsAgreeInEveryRun` | internal/nrm/alarm.go:48-157 | In every interleaving with fresh IDs, alarms and deduplication entries with a non-empty object correspond one to one by key and ID, with deadline event time plus five minutes |
| `AlarmStore.NoDuplicateInAnyRun` | internal/nrm/alarm.go:57-91 | In no interleaving with fresh IDs does a (type, non-empty object) have two alarms |
| `AlarmStore.SuppressedDuplicate` | internal/nrm/alarm.go:57-75 | A suppressed duplicate leaves the store and its window as they are and returns the ID of the alarm that holds the key, which is less than five minutes old |
| `AlarmStore.SuppressedIff` | internal/nrm/alarm.go:57-75 | An alarm is suppressed if and only if one of the same type and non-empty object is stored whose event is less than five minutes old |
| `AlarmStore.SavedExactly` | internal/nrm/alarm.go:68-91 | A save that is not suppressed stores the alarm as given under its ID, drops an older one of its type and non-empty object, and keeps all others |
| `AlarmStore.ClearedExactly` | internal/nrm/alarm.go:119-133 | Clearing takes away that alarm and no other, and its kind is no longer suppressed |
| `AlarmStore.AckedExactly` | internal/nrm/alarm.go:143-157 | Acknowledging marks that alarm with who and when, and changes nothing else |
| `AlarmStore.UninterruptedSave` | internal/nrm/alarm.go:48-92 | From any state of the machine, the sections of one Save in a row do what Save alone does and return what it returns |
| `AlarmStore.SaveReturnsStoredAlarm` | internal/nrm/alarm.go:68-91 | In every interleaving, a Save that ends under the write lock returns the ID of an alarm of its kind that is then stored: its own unless it is suppressed |
| `AlarmStore.Alarms.constructor` | internal/nrm/alarm.go:35-40 | A new store is empty |
| `AlarmStore.Alarms.FindDuplicate` | internal/nrm/alarm.go:57-65 | The ID under an unexpired entry of the key, if any |
| `AlarmStore.Alarms.Insert` | internal/nrm/alarm.go:68-91 | The section under the write lock: rechecks, drops the alarm of an expired entry, stores the new one |
| `AlarmStore.Alarms.Save` | internal/nrm/alarm.go:48-92 | Both lock sections in turn, with the generated ID when none is given |
| `AlarmStore.Alarms.Clear` | internal/nrm/alarm.go:119-133 | Removes the alarm and its entry; says whether it was there |
| `AlarmStore.Alarms.UpdateAck` | internal/nrm/alarm.go:143-157 | Changes the acknowledgement of that alarm only; says whether it was there |
| `AlarmStore.Alarms.List` | internal/nrm/alarm.go:95-108 | Exactly the stored alarms, each once, latest first |
| `AlarmManager.RaiseEffect` | internal/nrm/alarm_manager.go:105-134 | Raising makes an alarm of its key present, unique if there was none, and leaves every other key as it was |
| `AlarmManager.ClearEffect` | internal/nrm/alarm_manager.go:150-162 | Clearing removes every alarm of its key and leaves every other key as it was |
| `AlarmManager.OpenedEvent` | internal/nrm/alarm_manager.go:269-283 | An opening sets the breaker's flag and leaves its alarm present, and unique if it was |
| `AlarmManager.OtherEvent` | internal/nrm/alarm_manager.go:232-304 | Of all other events only closing a breaker that counts as open changes its flag or its alarm, and clears both |
| `AlarmManager.StoreRun` | internal/nrm/alarm_manager.go:232-304 | The store agreement holds after every sequence of events |
| `AlarmManager.MirrorStep` | internal/nrm/alarm_manager.go:232-304 | Every event keeps the breaker alarm of a target in step with the last event for it |
| `AlarmManager.BreakerAlarmMirrorsLastEvent` | internal/nrm/alarm_manager.go:269-289 | After every sequence of events, a breaker-open alarm for a target is present if and only if the last OPEN or CLOSED event for it was OPEN, and it is unique |
| `AlarmManager.CountersCountEvents` | internal/nrm/alarm_manager.go:240-246 | After every sequence of events the counters are the events since the last reset, and failures never exceed the total |
| `AlarmManager.RateAlarmMirrorsHistory` | internal/nrm/alarm_manager.go:244-267 | After every sequence of events, and for every rounding of the rate, the failure-rate alarm is present if and only if the rate exceeded the threshold at some failure |
| `AlarmManager.UnreachableAlarmsMirrorHistory` | internal/nrm/alarm_manager.go:291-303 | After every sequence of events, an AAA server's unreachable alarm is present if and only if that server was ever reported, and those of the database, Redis and the NRF, under their fixed objects only, if and only if they were; none is there twice under a name |
| `AlarmManager.AlarmsComeFromEvents` | internal/nrm/alarm_manager.go:232-304 | After every sequence of events, every stored alarm was raised by one of them and has its ID, its time, and the type, object, problem and severity that go with it |
| `AlarmManager.ClearListedIsClearKey` | internal/nrm/alarm_manager.go:150-162 | Clearing one by one the listed alarms of a key is the same as removing the key from both maps, whatever the order of the list |
| `AlarmManager.EventManager.constructor` | internal/nrm/alarm_manager.go:50-77 | The manager uses the given store, or a new empty one, and the given threshold, or ten percent; its counters are zero and no breaker is flagged |
| `AlarmManager.EventManager.RaiseAlarm` | internal/nrm/alarm_manager.go:105-134 | Saves an alarm with the given type, object, problem and severity, and returns its ID, or that of the alarm that suppresses it |
| `AlarmManager.EventManager.ClearByType` | internal/nrm/alarm_manager.go:150-162 | The loop over the list removes the key from both maps |
| `AlarmManager.EventManager.IsRaised` | internal/nrm/alarm_manager.go:272-279 | The loop over the snapshot finds whether an alarm of that type and object is stored |
| `AlarmManager.EventManager.IsTypeRaised` | internal/nrm/alarm_manager.go:252-259 | The loop over the snapshot finds whether an alarm of that type is stored |
| `AlarmManager.EventManager.Evaluate` | internal/nrm/alarm_manager.go:232-313 | One event, or a counter reset, moves the manager as the specification says; a new ID keeps the store agreement |
| `AlarmManager.EventManager.EvaluateFailure` | internal/nrm/alarm_manager.go:244-267 | The failure branch: counts, compares the rate, and raises unless already raised |
| `AlarmRaces.UninterruptedIsEvaluated` | internal/nrm/alarm_manager.go:232-304 | A call with two lock sections that nobody interrupts does what the evaluation of its event alone does |
| `AlarmRaces.StoreAlwaysOk` | internal/nrm/alarm_manager.go:232-322 | The store agreement holds under every interleaving of lock sections |
| `AlarmRaces.RaceRun` | internal/nrm/alarm_manager.go:269-322 | Under every interleaving: the breaker's flag is the last report begun, the alarm of a breaker reported closed is present exactly when it was raised late, and that of one reported open is present or still to be raised |
| `AlarmRaces.AlarmMirrorsIff` | internal/nrm/alarm_manager.go:269-322 | Under every interleaving, whenever no opening of the breaker is being evaluated: the alarm is present exactly when the last report is OPEN, if and only if no call has raised it after the breaker was closed (and no opening has begun since); a named breaker has at most one |
| `AlarmRaces.AlarmMirrorsWithoutGaps` | internal/nrm/alarm_manager.go:269-322 | The alarm mirrors the last report in every run in which no CLOSED of the breaker is evaluated between the sections of an OPEN |
| `AlarmRaces.LateAlarmStays` | internal/nrm/alarm_manager.go:285-289 | An alarm raised late stays up, with the flag down, through any further events until the next OPEN of the breaker |
| `AlarmRaces.ClosedInsideGap` | internal/nrm/alarm_manager.go:269-322 | A run in which CLOSED falls between the look and the raise of OPEN, after which the alarm is up although the last report is CLOSED |
| `AlarmRaces.RateAlarmMirrorsRaces` | internal/nrm/alarm_manager.go:244-267 | Under every interleaving the failure-rate alarm is present only if the rate exceeded the threshold at some failure, exactly then whenever no failure is being evaluated, and never twice |
| `AlarmRaces.UnreachableAlarmsMirrorRaces` | internal/nrm/alarm_manager.go:291-303 | The same of the unreachable alarms and the events begun, under every interleaving and at every moment of it |
| `AlarmRaces.NeverTwiceIff` | internal/nrm/alarm_manager.go:269-283 | A breaker is sure never to have two alarms, under every interleaving, if and only if its name is not empty |
| `AlarmRaces.UnnamedBreakerTwice` | internal/nrm/alarm_manager.go:269-283 | A run that leaves two alarms for the breaker with the empty name |
| `RateLimiter.StampsAreLastWindow` | internal/cache/redis/ratelimit.go:60-99 | Under a non-decreasing clock the sorted set holds exactly the stamps of the last window and the last stamp |
| `RateLimiter.CountedIs` | internal/cache/redis/ratelimit.go:60-99 | What a call counts is exactly the distinct earlier stamps within the window before it |
| `RateLimiter.AdmittedStampsBounded` | internal/cache/redis/ratelimit.go:60-99 | For every sequence of calls under a non-decreasing clock, the admitted calls in any half-open window fall on at most limit distinct milliseconds |
| `RateLimiter.AdmittedCallsBounded` | internal/cache/redis/ratelimit.go:60-99 | With distinct clock readings, at most limit calls are admitted in any half-open window |
| `RateLimiter.LimitOneSpacesRequests` | internal/cache/redis/ratelimit.go:60-99 | With a limit of one, an admitted call is at least a window after every earlier call, admitted or not |
| `RateLimiter.SameMillisecondAllAdmitted` | internal/cache/redis/ratelimit.go:78-78 | With a limit of at least two, any number of calls in one millisecond are all admitted |
| `RateLimiter.CallsBoundedIff` | internal/cache/redis/ratelimit.go:60-99 | At most limit requests are admitted in every window of every run under a non-decreasing clock if and only if the limit is at most one or the window has no length |
| `RateLimiter.ExpiryChangesNothing` | internal/cache/redis/ratelimit.go:60-99 | A key that expires no sooner than the window decides every call as one that never expires |
| `RateLimiter.Limiter.constructor` | internal/cache/redis/ratelimit.go:25-32 | A new limiter has the given window and limit, and no keys |
| `RateLimiter.Limiter.Allow` | internal/cache/redis/ratelimit.go:60-99 | Trims, counts, adds and sets the expiry of that key only, and decides by the count |
| `RateLimiter.Limiter.Reset` | internal/cache/redis/ratelimit.go:127-134 | Forgets that key only |
| `RateRaces.InvRun` | internal/cache/redis/ratelimit.go:60-99 | Under every interleaving of the commands of any number of calls: the set holds the stamps added but for those some trim dropped, and the same holds of what each call counted, with whom it had seen |
| `RateRaces.SerialIsSequential` | internal/cache/redis/ratelimit.go:60-99 | Calls that run one after the other under a non-decreasing clock decide exactly as the limiter of whole calls, do not overlap and trim in order |
| `RateRaces.OverlapFreeBound` | internal/cache/redis/ratelimit.go:60-99 | For every schedule in which no two calls overlap and no stamp is dropped while a call that counts later has it in its window, the admitted calls of every window fall on at most limit milliseconds, whatever the order of the clock readings |
| `RateRaces.InOrderBound` | internal/cache/redis/ratelimit.go:60-99 | The same for every schedule without overlap in which no call trims before one with an earlier clock reading has counted |
| `RateRaces.LimitHoldsIff` | internal/cache/redis/ratelimit.go:60-99 | For every schedule of calls with different stamps inside one window, the bound holds for every limit if and only if no two calls overlap |
| `RateRaces.BothCountFirst` | internal/cache/redis/ratelimit.go:69-90 | A schedule of two calls in different milliseconds that both count before either adds, and are both admitted although the limit is one |
| `DeadLetter.NextShrinks` | internal/aaa/gateway/dlq.go:50-133 | Every pop from a non-empty queue with limits lowers the number of pops left, whatever the outcome |
| `DeadLetter.QueueDrains` | internal/aaa/gateway/dlq.go:50-133 | For every pattern of outcomes and no new pushes, either queue is empty after the sum of (limit + 1 - attempts), at least one for each entry, pops |
| `DeadLetter.UnlimitedNeverDrains` | internal/cache/redis/dlq.go:175-218 | Any queue that holds a notification without a limit, in whatever company, still holds one after any number of pops that are all refused and put back |
| `DeadLetter.DrainsIff` | internal/cache/redis/dlq.go:158-219 | Either queue is empty after that many pops, or after any fixed number of pops, whatever the outcomes, if and only if all its messages have a limit |
| `DeadLetter.NextPlaces` | internal/cache/redis/dlq.go:158-219 | One pop conserves, for every ID, the copies queued, delivered, exhausted and lost together |
| `DeadLetter.RunPlaces` | internal/cache/redis/dlq.go:158-219 | The same for every sequence of pops |
| `DeadLetter.RunTries` | internal/aaa/gateway/dlq.go:73-120 | For an ID whose messages have a limit, whatever else is queued, deliveries made plus attempts left never grow over any sequence of pops |
| `DeadLetter.DeliveriesBounded` | internal/aaa/gateway/dlq.go:73-120 | An item with a limit gets no more deliveries than its remaining attempts, whatever else is queued |
| `DeadLetter.ExactlyOnePlace` | internal/cache/redis/dlq.go:158-219 | An item queued once is at all times exactly one of queued once, delivered, exhausted, or lost to a failed requeue |
| `DeadLetter.OffersExactly` | internal/aaa/gateway/dlq.go:73-120 | A pop offers the message it takes exactly if there is a target, counts it delivered exactly if accepted, and puts it back with one more attempt in either case of failure |
| `DeadLetter.RefusedGatewayIsNext` | internal/aaa/gateway/dlq.go:123-133 | A message the gateway puts back is the next one popped |
| `DeadLetter.RefusedAmfIsLast` | internal/cache/redis/dlq.go:64-74 | A notification the AMF refuses is popped again only after everything else that was queued |
| `DeadLetter.SendNotification` | internal/amf/amf.go:76-135 | The direct attempts stop at the first success, when cancelled between two, or when they run out; a failed notification is queued with exactly the attempts used |
| `DeadLetter.DirectTriesAre` | internal/resilience/retry.go:33-65 | Three direct attempts for a limit of zero, the limit itself for a positive one, none for a negative one |
| `DeadLetter.ExhaustedNotificationRetriedIff` | internal/amf/amf.go:88-116 | In every queue where a notification whose direct attempts are used up is next: it is offered again if and only if its limit is not positive; otherwise the pop discards it and changes nothing else |
| `DeadLetter.OfferedIff` | internal/cache/redis/dlq.go:158-219 | For every queue, some pattern of outcomes gets a message with an ID offered if and only if one with that ID has an attempt left |
| `DeadLetter.ExhaustedNotificationOfferedIff` | internal/cache/redis/dlq.go:175-181 | For every queue that holds such notifications anywhere, one is ever offered again, under any outcomes, if and only if their limit is not positive |
| `DeadLetter.Reenqueue` | internal/cache/redis/dlq.go:195-208 | The push and its five retries succeed if and only if one of the six pushes does |
| `DeadLetter.Consumer.Take` | internal/aaa/gateway/dlq.go:50-83 | Pops at the right end; drops malformed and exhausted entries |
| `DeadLetter.Consumer.ProcessGateway` | internal/aaa/gateway/dlq.go:50-133 | One gateway pop: delivers, or requeues at the right end with one more attempt, or loses the message to a failed push |
| `DeadLetter.Consumer.ProcessAmf` | internal/cache/redis/dlq.go:158-219 | One AMF pop: delivers, or requeues at the left end with one more attempt, or loses the item when all six pushes fail |
| `Backoff.DelayIsCappedDoubling` | internal/nrf/heartbeat.go:256-265 | With 64-bit wrap-around, the delay before jitter is the smaller of 5 s times 2^attempt and 5 minutes, for every attempt from zero upward |
| `Backoff.DelayRange` | internal/nrf/heartbeat.go:256-265 | The delay before jitter is between 5 s and 5 minutes for every attempt |
| `Backoff.ExponentialBackoff` | internal/nrf/heartbeat.go:256-270 | The jitter adds less than a fifth, so the result is at least 5 s and below 6 minutes |

## Left out

- HTTP handlers, routers, middleware, factories and main packages: input and output wiring.
- PostgreSQL repositories, Redis session stores and write-through caching: plumbing over libraries.
- Cryptographic code (AES-GCM, HKDF, JWT, Vault) and the bodies of SHA-256 and HMAC.
- Diameter message builders, the dictionary and the RADIUS client; `sendCoAResponse`, which is tied to sockets.
- EAP packet constructors (`BuildRequest`, `BuildResponse`, `BuildSuccess`, `BuildFailure`) and attribute constructors: thin wrappers.
- Concurrent Process calls on one session and a session store whose Put fails: the engine promises nothing there.
- The TLS fields of a session, its RecordResponse bookkeeping, and the Base64 form in which messages travel: they do not affect the modelled decisions.
- FragmentManager's Get, Cleanup and statistics: simple map operations.
- The deadlines of the server-initiated registry: a timer may fire at any moment, which covers every choice of deadline but says nothing about when.
- Operators clearing alarms by ID while events are evaluated: the mirror theorems are about evaluated events.
- Nil arguments (a nil alarm or event), which are refused or ignored at once.
- Redis errors of the rate limiter, which are returned to the caller, and the expiry of its keys between interleaved commands.
- Alarm texts other than type, object, problem and severity.
- The breaker's GetState, counters and last-failure time: read-only accessors.
- Redis pushes that report failure after taking effect: a failed push adds nothing.
- The failure of the first enqueue of a notification, which the source reports to its caller.
- Status transitions, validators, S-NSSAI formats, problem details, metrics, tracing and logging: easy members or observability.
