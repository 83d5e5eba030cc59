/** The hop-by-hop pending table of the Diameter forwarder (Hop-by-Hop Identifier, section 3 of RFC 6733).
    Each Forward call takes the next identifier, enters its one-slot channel in the table and waits;
    an answer handler looks a channel up and then sends on it; reconnecting wakes everybody with nil.
    The lookup and the send of a handler are separate steps, as are the wake-up of a Forward and its
    removal from the table. */
module DiameterPending {
  import opened Base

  const UINT32 := 0x1_0000_0000
  const UINT64 := 0x1_0000_0000_0000_0000

  datatype Msg = Msg(hopByHop: nat, body: bytes)

  /** `slot` is the channel buffer: None when empty, Some(None) for the nil that signals a lost connection. */
  datatype Status = Allocated | Waiting | Received(reply: Option<Msg>) | Cancelled

  /** `removals` counts the calls of removePending: one when the Forward has received something, up to two when
      it gave up, where an explicit one comes before the deferred one. */
  datatype Forward = Forward(hopByHop: nat, slot: Option<Option<Msg>>, status: Status, removals: nat)

  datatype Handler = Handler(fwd: nat, msg: Msg, delivered: bool)

  datatype State = State(seqNo: nat, pending: map<nat, nat>, forwards: seq<Forward>, handlers: seq<Handler>)

  const INIT := State(0, map[], [], [])

  datatype Step =
    | Allocate
    | AddPending(fwd: nat)
    | Receive(fwd: nat)
    | Cancel(fwd: nat)
    | RemovePending(fwd: nat)
    | Lookup(msg: Msg)
    | Deliver(handler: nat)
    | ClearPending

  function MaxRemovals(status: Status): nat {
    match status
    case Received(_) => 1
    case Cancelled => 2
    case _ => 0
  }

  predicate Enabled(st: State, step: Step) {
    match step
    case AddPending(f) => f < |st.forwards| && st.forwards[f].status.Allocated?
    case Receive(f) => f < |st.forwards| && st.forwards[f].status.Waiting? && st.forwards[f].slot.Some?
    case Cancel(f) => f < |st.forwards| && st.forwards[f].status.Waiting?
    case RemovePending(f) => f < |st.forwards| && st.forwards[f].removals < MaxRemovals(st.forwards[f].status)
    case Deliver(h) =>
      && h < |st.handlers| && !st.handlers[h].delivered
      && st.handlers[h].fwd < |st.forwards| && st.forwards[st.handlers[h].fwd].slot.None?
    case _ => true
  }

  function NextSeq(seqNo: nat): nat { (seqNo + 1) % UINT64 }

  function Wake(f: Forward): Forward { if f.slot.None? then f.(slot := Some(None)) else f }

  function WakeAll(forwards: seq<Forward>, who: set<nat>): seq<Forward> {
    seq(|forwards|, i requires 0 <= i < |forwards| => if i in who then Wake(forwards[i]) else forwards[i])
  }

  function Next(st: State, step: Step): State
    requires Enabled(st, step)
  {
    match step
    case Allocate =>
      var n := NextSeq(st.seqNo);
      st.(seqNo := n, forwards := st.forwards + [Forward(n % UINT32, None, Allocated, 0)])
    case AddPending(f) =>
      st.(pending := st.pending[st.forwards[f].hopByHop := f],
          forwards := st.forwards[f := st.forwards[f].(status := Waiting)])
    case Receive(f) =>
      var fwd := st.forwards[f];
      st.(forwards := st.forwards[f := fwd.(slot := None, status := Received(fwd.slot.value))])
    case Cancel(f) => st.(forwards := st.forwards[f := st.forwards[f].(status := Cancelled)])
    case RemovePending(f) =>
      st.(pending := st.pending - {st.forwards[f].hopByHop},
          forwards := st.forwards[f := st.forwards[f].(removals := st.forwards[f].removals + 1)])
    case Lookup(m) =>
      if m.hopByHop in st.pending then st.(handlers := st.handlers + [Handler(st.pending[m.hopByHop], m, false)]) else st
    case Deliver(h) =>
      var f := st.handlers[h].fwd;
      st.(forwards := st.forwards[f := st.forwards[f].(slot := Some(Some(st.handlers[h].msg)))],
          handlers := st.handlers[h := st.handlers[h].(delivered := true)])
    case ClearPending => st.(pending := map[], forwards := WakeAll(st.forwards, st.pending.Values))
  }

  ghost predicate StepAt(trace: seq<State>, steps: seq<Step>, i: nat)
    requires i + 1 < |trace| && i < |steps|
  {
    Enabled(trace[i], steps[i]) && trace[i + 1] == Next(trace[i], steps[i])
  }

  ghost predicate IsRun(trace: seq<State>, steps: seq<Step>) {
    |trace| == |steps| + 1 && trace[0] == INIT && forall i | 0 <= i < |steps| :: StepAt(trace, steps, i)
  }

  // ---- What every step keeps ----

  ghost predicate ForwardOk(f: Forward, i: nat) {
    && f.hopByHop == (i + 1) % UINT32
    && (f.status.Allocated? ==> f.slot.None?)
    && (f.slot.Some? && f.slot.value.Some? ==> f.slot.value.value.hopByHop == f.hopByHop)
    && (f.status.Received? && f.status.reply.Some? ==> f.status.reply.value.hopByHop == f.hopByHop)
  }

  ghost predicate HandlerOk(st: State, h: Handler) {
    && h.fwd < |st.forwards| && st.forwards[h.fwd].hopByHop == h.msg.hopByHop
    && !st.forwards[h.fwd].status.Allocated?
  }

  ghost predicate EntryOk(st: State, id: nat)
    requires id in st.pending
  {
    && st.pending[id] < |st.forwards|
    && st.forwards[st.pending[id]].hopByHop == id
    && !st.forwards[st.pending[id]].status.Allocated?
  }

  ghost predicate Inv(st: State) {
    && st.seqNo == |st.forwards| % UINT64
    && (forall i | 0 <= i < |st.forwards| :: ForwardOk(st.forwards[i], i))
    && (forall h | 0 <= h < |st.handlers| :: HandlerOk(st, st.handlers[h]))
    && (forall id | id in st.pending :: EntryOk(st, id))
  }

  lemma ModUnique(x: int, q: int, r: int)
    requires x == UINT32 * q + r && 0 <= r < UINT32
    ensures x % UINT32 == r
  {
  }

  lemma NextSeqOf(n: nat)
    ensures NextSeq(n % UINT64) == (n + 1) % UINT64
  {
  }

  lemma TruncatedTwice(n: nat)
    ensures n % UINT64 % UINT32 == n % UINT32
  {
    var q, k := n / UINT64, n % UINT64;
    ModUnique(n, UINT32 * q + k / UINT32, k % UINT32);
  }

  lemma TruncatedSequence(n: nat)
    ensures NextSeq(n % UINT64) == (n + 1) % UINT64
    ensures (n + 1) % UINT64 % UINT32 == (n + 1) % UINT32
  {
    NextSeqOf(n);
    TruncatedTwice(n + 1);
  }

  /** Equal remainders mean a distance divisible by 2^32. */
  lemma SameRemainderIff(a: nat, b: nat)
    requires a <= b
    ensures a % UINT32 == b % UINT32 <==> (b - a) % UINT32 == 0
  {
    var qa, qb, qd := a / UINT32, b / UINT32, (b - a) / UINT32;
    if a % UINT32 == b % UINT32 {
      ModUnique(b - a, qb - qa, 0);
    }
    if (b - a) % UINT32 == 0 {
      ModUnique(b, qa + qd, a % UINT32);
    }
  }

  lemma InvStep(st: State, step: Step)
    requires Inv(st) && Enabled(st, step)
    ensures Inv(Next(st, step))
  {
    TruncatedSequence(|st.forwards|);
    var st' := Next(st, step);
    forall h | 0 <= h < |st'.handlers| ensures HandlerOk(st', st'.handlers[h]) {
      if h < |st.handlers| {
        assert HandlerOk(st, st.handlers[h]);
      } else {
        assert EntryOk(st, step.msg.hopByHop);
      }
    }
    forall id | id in st'.pending ensures EntryOk(st', id) {
      if id in st.pending { assert EntryOk(st, id); }
    }
    forall i | 0 <= i < |st'.forwards| ensures ForwardOk(st'.forwards[i], i) {
      if i < |st.forwards| { assert ForwardOk(st.forwards[i], i); }
      if step.Deliver? { assert HandlerOk(st, st.handlers[step.handler]); }
    }
  }

  lemma {:induction false} InvRun(trace: seq<State>, steps: seq<Step>, i: nat)
    requires IsRun(trace, steps) && i < |trace|
    ensures Inv(trace[i])
  {
    if i > 0 {
      InvRun(trace, steps, i - 1);
      assert StepAt(trace, steps, i - 1);
      InvStep(trace[i - 1], steps[i - 1]);
    }
  }

  // ---- Facts about every run ----

  /** A message that a Forward receives carries the identifier that this Forward sent. */
  lemma RepliesCarryOwnIdentifier(trace: seq<State>, steps: seq<Step>, i: nat, f: nat)
    requires IsRun(trace, steps) && i < |trace| && f < |trace[i].forwards|
    requires trace[i].forwards[f].status.Received? && trace[i].forwards[f].status.reply.Some?
    ensures trace[i].forwards[f].status.reply.value.hopByHop == trace[i].forwards[f].hopByHop
  {
    InvRun(trace, steps, i);
    assert ForwardOk(trace[i].forwards[f], f);
  }

  /** Two Forwards share an identifier exactly when they lie a multiple of 2^32 allocations apart. */
  lemma IdentifierClash(trace: seq<State>, steps: seq<Step>, i: nat, f: nat, g: nat)
    requires IsRun(trace, steps) && i < |trace| && f < g < |trace[i].forwards|
    ensures trace[i].forwards[f].hopByHop == trace[i].forwards[g].hopByHop <==> (g - f) % UINT32 == 0
    ensures g - f < UINT32 ==> trace[i].forwards[f].hopByHop != trace[i].forwards[g].hopByHop
  {
    InvRun(trace, steps, i);
    assert ForwardOk(trace[i].forwards[f], f) && ForwardOk(trace[i].forwards[g], g);
    hide Inv, IsRun;
    SameRemainderIff(f + 1, g + 1);
  }

  /** The Forward is past its wait, or can be woken at once. */
  ghost predicate NotStuck(f: Forward) { !f.status.Waiting? || f.slot.Some? }

  lemma NotStuckStep(st: State, step: Step, f: nat)
    requires Enabled(st, step) && f < |st.forwards| && NotStuck(st.forwards[f])
    requires !st.forwards[f].status.Allocated?
    ensures f < |Next(st, step).forwards|
    ensures NotStuck(Next(st, step).forwards[f]) && !Next(st, step).forwards[f].status.Allocated?
  {
  }

  /** Every Forward in the table when clearPending runs has something to receive, from then on until it
      has received it or given up. */
  lemma {:induction false} ClearWakesEveryEntry(trace: seq<State>, steps: seq<Step>, k: nat, j: nat, id: nat)
    requires IsRun(trace, steps) && k < j < |trace| && steps[k].ClearPending? && id in trace[k].pending
    ensures var f := trace[k].pending[id];
            && f < |trace[j].forwards|
            && NotStuck(trace[j].forwards[f])
            && !trace[j].forwards[f].status.Allocated?
  {
    var f := trace[k].pending[id];
    assert StepAt(trace, steps, j - 1);
    if j == k + 1 {
      InvRun(trace, steps, k);
      assert EntryOk(trace[k], id);
      assert f in trace[k].pending.Values;
    } else {
      ClearWakesEveryEntry(trace, steps, k, j - 1, id);
      NotStuckStep(trace[j - 1], steps[j - 1], f);
    }
  }

  // ---- Who is in the table ----

  /** The Forward is the table entry of its identifier. */
  ghost predicate IsEntry(st: State, f: nat) {
    f < |st.forwards| && st.forwards[f].hopByHop in st.pending && st.pending[st.forwards[f].hopByHop] == f
  }

  /** The step enters or removes something under `id`. */
  predicate Touches(st: State, step: Step, id: nat) {
    match step
    case AddPending(g) => g < |st.forwards| && st.forwards[g].hopByHop == id
    case RemovePending(g) => g < |st.forwards| && st.forwards[g].hopByHop == id
    case ClearPending => true
    case _ => false
  }

  lemma EntryStep(st: State, step: Step, f: nat)
    requires Enabled(st, step) && f < |st.forwards| && !st.forwards[f].status.Allocated?
    ensures var st' := Next(st, step);
            && f < |st'.forwards| && !st'.forwards[f].status.Allocated?
            && st'.forwards[f].hopByHop == st.forwards[f].hopByHop
            && (IsEntry(st', f) <==> IsEntry(st, f) && !Touches(st, step, st.forwards[f].hopByHop))
  {
  }

  /** A Forward stays in the table exactly as long as nothing is entered or removed under its identifier. */
  lemma {:induction false} EntryRun(trace: seq<State>, steps: seq<Step>, i: nat, j: nat, f: nat)
    requires IsRun(trace, steps) && i <= j < |trace| && f < |trace[i].forwards|
    requires !trace[i].forwards[f].status.Allocated?
    ensures f < |trace[j].forwards| && !trace[j].forwards[f].status.Allocated?
    ensures trace[j].forwards[f].hopByHop == trace[i].forwards[f].hopByHop
    ensures IsEntry(trace[j], f)
            <==> IsEntry(trace[i], f) && forall k | i <= k < j :: !Touches(trace[k], steps[k], trace[i].forwards[f].hopByHop)
  {
    if i < j {
      EntryRun(trace, steps, i, j - 1, f);
      assert StepAt(trace, steps, j - 1);
      EntryStep(trace[j - 1], steps[j - 1], f);
      hide Next, Enabled, IsEntry, Touches;
    }
  }

  /** What a reconnect does to a Forward: its slot is full afterwards exactly when it was full before or the
      Forward is in the table; a Forward that is not in the table is left as it was. */
  lemma ClearWakesIff(st: State, f: nat)
    requires Inv(st) && f < |st.forwards|
    ensures var st' := Next(st, ClearPending);
            && (st'.forwards[f].slot.Some? <==> st.forwards[f].slot.Some? || IsEntry(st, f))
            && (!IsEntry(st, f) ==> st'.forwards[f] == st.forwards[f])
            && (st.forwards[f].status.Allocated? ==> !IsEntry(st, f) && st'.forwards[f].slot.None?)
  {
    assert ForwardOk(st.forwards[f], f);
    if f in st.pending.Values {
      var id :| id in st.pending && st.pending[id] == f;
      assert EntryOk(st, id);
    }
    if IsEntry(st, f) { assert EntryOk(st, st.forwards[f].hopByHop); }
  }

  /** A reconnect at step `k` wakes a Forward that entered the table at step `i` if and only if it had something
      to receive already or nothing was entered or removed under its identifier in between. */
  lemma ReconnectReachesIff(trace: seq<State>, steps: seq<Step>, i: nat, k: nat, f: nat)
    requires IsRun(trace, steps) && i < k < |steps| && steps[i] == AddPending(f) && steps[k].ClearPending?
    ensures f < |trace[i].forwards| && f < |trace[k].forwards| && f < |trace[k + 1].forwards|
    ensures trace[k + 1].forwards[f].slot.Some?
            <==> || trace[k].forwards[f].slot.Some?
                 || forall l | i < l < k :: !Touches(trace[l], steps[l], trace[i].forwards[f].hopByHop)
  {
    EntersTable(trace, steps, i, f);
    EntryRun(trace, steps, i + 1, k, f);
    InvRun(trace, steps, k);
    assert StepAt(trace, steps, k);
    ClearWakesIff(trace[k], f);
    hide Inv, Touches, IsRun, Next, Enabled, IsEntry;
  }

  lemma EntersTable(trace: seq<State>, steps: seq<Step>, i: nat, f: nat)
    requires IsRun(trace, steps) && i < |steps| && steps[i] == AddPending(f)
    ensures f < |trace[i].forwards| && f < |trace[i + 1].forwards|
    ensures trace[i + 1].forwards[f] == trace[i].forwards[f].(status := Waiting) && IsEntry(trace[i + 1], f)
  {
    assert StepAt(trace, steps, i);
  }

  /** Whatever reconnects came before, a Forward that enters the table starts its wait with nothing to receive. */
  lemma WaitStartsEmpty(trace: seq<State>, steps: seq<Step>, i: nat, f: nat)
    requires IsRun(trace, steps) && i < |steps| && steps[i] == AddPending(f)
    ensures f < |trace[i + 1].forwards|
    ensures trace[i + 1].forwards[f].status.Waiting? && trace[i + 1].forwards[f].slot.None? && IsEntry(trace[i + 1], f)
  {
    EntersTable(trace, steps, i, f);
    InvRun(trace, steps, i);
    assert StepAt(trace, steps, i) && ForwardOk(trace[i].forwards[f], f);
  }

  /** A Forward that waits with an empty slot is still the table entry of its identifier. */
  ghost predicate Reachable(st: State, f: nat)
    requires f < |st.forwards|
  {
    NotStuck(st.forwards[f]) || IsEntry(st, f)
  }

  /** Another Forward with the same identifier enters or leaves the table, over the head of this one. */
  predicate TakesOver(st: State, step: Step, f: nat) {
    && (step.AddPending? || step.RemovePending?) && step.fwd != f
    && f < |st.forwards| && step.fwd < |st.forwards|
    && !st.forwards[f].status.Allocated? && st.forwards[step.fwd].hopByHop == st.forwards[f].hopByHop
  }

  lemma ReachableStep(st: State, step: Step, f: nat)
    requires Inv(st) && Enabled(st, step) && f < |st.forwards|
    requires Reachable(st, f) && !TakesOver(st, step, f)
    ensures f < |Next(st, step).forwards| && Reachable(Next(st, step), f)
  {
    hide NextSeq, ForwardOk;
    if step.ClearPending? {
      ClearWakesIff(st, f);
    } else if !st.forwards[f].status.Allocated? {
      EntryStep(st, step, f);
    }
    hide Inv;
  }

  /** In every run, a Forward waits with nothing to receive and without an entry if and only if it waits with an
      empty slot and another Forward with its identifier has entered or left the table since it did. */
  lemma {:induction false} EntryLostIff(trace: seq<State>, steps: seq<Step>, j: nat, f: nat)
    requires IsRun(trace, steps) && j < |trace| && f < |trace[j].forwards|
    ensures !Reachable(trace[j], f)
            <==> && trace[j].forwards[f].status.Waiting? && trace[j].forwards[f].slot.None?
                 && exists k | 0 <= k < j :: TakesOver(trace[k], steps[k], f)
  {
    hide Next, Enabled, TakesOver, IsEntry;
    if !Reachable(trace[j], f) {
      Overtaken(trace, steps, j, f);
    } else if exists k | 0 <= k < j :: TakesOver(trace[k], steps[k], f) {
      var k :| 0 <= k < j && TakesOver(trace[k], steps[k], f);
      TakenOverForGood(trace, steps, k, j, f);
    }
  }

  lemma {:induction false} Overtaken(trace: seq<State>, steps: seq<Step>, j: nat, f: nat)
    requires IsRun(trace, steps) && j < |trace| && f < |trace[j].forwards| && !Reachable(trace[j], f)
    ensures exists k | 0 <= k < j :: TakesOver(trace[k], steps[k], f)
  {
    hide TakesOver;
    if j > 0 {
      assert StepAt(trace, steps, j - 1);
      InvRun(trace, steps, j - 1);
      hide Inv;
      if f < |trace[j - 1].forwards| {
        hide Next;
        if Reachable(trace[j - 1], f) {
          if !TakesOver(trace[j - 1], steps[j - 1], f) { ReachableStep(trace[j - 1], steps[j - 1], f); }
        } else {
          Overtaken(trace, steps, j - 1, f);
        }
      }
    }
  }

  lemma TakenOverForGood(trace: seq<State>, steps: seq<Step>, k: nat, j: nat, f: nat)
    requires IsRun(trace, steps) && k < j < |trace| && TakesOver(trace[k], steps[k], f)
    ensures !IsEntry(trace[j], f)
  {
    EntryRun(trace, steps, k, j, f);
    assert Touches(trace[k], steps[k], trace[k].forwards[f].hopByHop);
  }

  lemma SmallIndicesDiffer(f: nat, g: nat)
    requires f < UINT32 && g < UINT32 && (f + 1) % UINT32 == (g + 1) % UINT32
    ensures f == g
  {
  }

  /** In particular, up to 2^32 allocations no waiting Forward loses its entry before it has something to receive. */
  lemma NoEntryLost(trace: seq<State>, steps: seq<Step>, i: nat, f: nat)
    requires IsRun(trace, steps) && i < |trace| && |trace[i].forwards| <= UINT32 && f < |trace[i].forwards|
    ensures Reachable(trace[i], f)
  {
    if !Reachable(trace[i], f) {
      EntryLostIff(trace, steps, i, f);
      var k :| 0 <= k < i && TakesOver(trace[k], steps[k], f);
      InvRun(trace, steps, k);
      assert ForwardOk(trace[k].forwards[f], f) && ForwardOk(trace[k].forwards[steps[k].fwd], steps[k].fwd);
      Grows(trace, steps, k, i);
      SmallIndicesDiffer(f, steps[k].fwd);
    }
  }

  lemma {:induction false} Grows(trace: seq<State>, steps: seq<Step>, i: nat, j: nat)
    requires IsRun(trace, steps) && i <= j < |trace|
    ensures |trace[i].forwards| <= |trace[j].forwards|
  {
    if i < j {
      Grows(trace, steps, i, j - 1);
      assert StepAt(trace, steps, j - 1);
    }
  }

  /** A Forward that has its identifier but is not yet in the table sleeps through a reconnect. */
  lemma LateForwardMissesClear() returns (trace: seq<State>)
    ensures IsRun(trace, [Allocate, ClearPending, AddPending(0)])
    ensures |trace[3].forwards| == 1 && trace[3].forwards[0].status.Waiting? && trace[3].forwards[0].slot.None?
  {
    var f := Forward(1, None, Allocated, 0);
    var t1 := State(1, map[], [f], []);
    var t3 := State(1, map[1 := 0], [f.(status := Waiting)], []);
    assert WakeAll([f], {}) == [f];
    trace := [INIT, t1, t1, t3];
    var steps := [Allocate, ClearPending, AddPending(0)];
    assert StepAt(trace, steps, 0) && StepAt(trace, steps, 1) && StepAt(trace, steps, 2);
  }

  // ---- Which Forwards can still receive ----

  /** Where a schedule leads from a state, if all its steps can be taken. */
  function Execute(st: State, steps: seq<Step>): Option<State>
    decreases |steps|
  {
    if steps == [] then Some(st)
    else if Enabled(st, steps[0]) then Execute(Next(st, steps[0]), steps[1..]) else None
  }

  ghost predicate Receives(st: State, steps: seq<Step>, f: nat) {
    && Execute(st, steps).Some?
    && f < |Execute(st, steps).value.forwards| && Execute(st, steps).value.forwards[f].status.Received?
  }

  /** A handler has looked the Forward up and not sent yet. */
  ghost predicate Awaited(st: State, f: nat) {
    exists h | 0 <= h < |st.handlers| :: st.handlers[h].fwd == f && !st.handlers[h].delivered
  }

  /** Nothing has reached the Forward and nothing is left that could. */
  ghost predicate Lost(st: State, f: nat) {
    && f < |st.forwards| && (st.forwards[f].status.Waiting? || st.forwards[f].status.Cancelled?)
    && st.forwards[f].slot.None? && !IsEntry(st, f) && !Awaited(st, f)
  }

  lemma LostStep(st: State, step: Step, f: nat)
    requires Inv(st) && Enabled(st, step) && Lost(st, f)
    ensures Lost(Next(st, step), f)
  {
    EntryStep(st, step, f);
    NotAwaitedStep(st, step, f);
    if step.ClearPending? { ClearWakesIff(st, f); }
    hide IsEntry, Inv, Awaited;
    if step.Deliver? { Unsent(st, step.handler); }
  }

  lemma Unsent(st: State, h: nat)
    requires h < |st.handlers| && !st.handlers[h].delivered
    ensures Awaited(st, st.handlers[h].fwd)
  {
  }

  lemma NotAwaitedStep(st: State, step: Step, f: nat)
    requires Inv(st) && Enabled(st, step) && f < |st.forwards| && !IsEntry(st, f) && !Awaited(st, f)
    ensures !Awaited(Next(st, step), f)
  {
    if step.Lookup? && step.msg.hopByHop in st.pending { assert EntryOk(st, step.msg.hopByHop); }
  }

  lemma {:induction false} LostForGood(st: State, steps: seq<Step>, f: nat)
    requires Inv(st) && Lost(st, f)
    ensures !Receives(st, steps, f)
    decreases |steps|
  {
    hide Next, Enabled, Inv;
    if steps != [] && Enabled(st, steps[0]) {
      LostStep(st, steps[0], f);
      InvStep(st, steps[0]);
      LostForGood(Next(st, steps[0]), steps[1..], f);
    }
  }

  lemma OneStep(st: State, step: Step, more: seq<Step>)
    requires Enabled(st, step)
    ensures Execute(st, [step] + more) == Execute(Next(st, step), more)
  {
    assert ([step] + more)[1..] == more;
  }

  /** A Forward that waits on a full slot receives at once. */
  lemma FullSlotReceives(st: State, f: nat)
    requires f < |st.forwards| && st.forwards[f].status.Waiting? && st.forwards[f].slot.Some?
    ensures Receives(st, [Receive(f)], f)
  {
    OneStep(st, Receive(f), []);
    assert [Receive(f)] + [] == [Receive(f)];
  }

  /** One that a handler has looked up receives when the handler has sent. */
  lemma AwaitedReceives(st: State, f: nat, h: nat)
    requires f < |st.forwards| && st.forwards[f].status.Waiting? && st.forwards[f].slot.None?
    requires h < |st.handlers| && st.handlers[h].fwd == f && !st.handlers[h].delivered
    ensures Receives(st, [Deliver(h), Receive(f)], f)
  {
    OneStep(st, Deliver(h), [Receive(f)]);
    FullSlotReceives(Next(st, Deliver(h)), f);
    assert [Deliver(h)] + [Receive(f)] == [Deliver(h), Receive(f)];
  }

  /** One that is in the table receives when an answer with its identifier comes. */
  lemma EntryReceives(st: State, f: nat) returns (more: seq<Step>)
    requires IsEntry(st, f) && st.forwards[f].status.Waiting? && st.forwards[f].slot.None?
    ensures Receives(st, more, f)
  {
    var look, h := Lookup(Msg(st.forwards[f].hopByHop, [])), |st.handlers|;
    more := [look] + [Deliver(h), Receive(f)];
    OneStep(st, look, [Deliver(h), Receive(f)]);
    AwaitedReceives(Next(st, look), f, h);
  }

  /** What a waiting Forward can still get, under any schedule: something, if and only if its slot is full, it is
      in the table, or a handler that has looked it up has not sent yet. */
  lemma CanReceiveIff(st: State, f: nat)
    requires Inv(st) && f < |st.forwards| && st.forwards[f].status.Waiting?
    ensures (exists more :: Receives(st, more, f))
            <==> st.forwards[f].slot.Some? || IsEntry(st, f) || Awaited(st, f)
  {
    if st.forwards[f].slot.Some? {
      FullSlotReceives(st, f);
    } else if IsEntry(st, f) {
      var more := EntryReceives(st, f);
    } else if Awaited(st, f) {
      var h :| 0 <= h < |st.handlers| && st.handlers[h].fwd == f && !st.handlers[h].delivered;
      AwaitedReceives(st, f, h);
    } else {
      forall more ensures !Receives(st, more, f) { LostForGood(st, more, f); }
    }
    hide Receives, Inv, IsEntry, Awaited;
  }

  /** The exact condition in every run: a waiting Forward is cut off for good, under every schedule, if and only if
      it has nothing to receive, another Forward with its identifier has entered or left the table since it
      entered, and no handler that looked it up before is still to send. */
  lemma OrphanedIff(trace: seq<State>, steps: seq<Step>, j: nat, f: nat)
    requires IsRun(trace, steps) && j < |trace| && f < |trace[j].forwards| && trace[j].forwards[f].status.Waiting?
    ensures (forall more :: !Receives(trace[j], more, f))
            <==> && trace[j].forwards[f].slot.None? && !Awaited(trace[j], f)
                 && exists k | 0 <= k < j :: TakesOver(trace[k], steps[k], f)
  {
    InvRun(trace, steps, j);
    CanReceiveIff(trace[j], f);
    EntryLostIff(trace, steps, j, f);
    hide Receives, Inv, IsEntry, Awaited, TakesOver, IsRun;
  }

  /** Up to 2^32 allocations no waiting Forward is ever cut off. */
  lemma NoForwardOrphaned(trace: seq<State>, steps: seq<Step>, i: nat, f: nat)
    requires IsRun(trace, steps) && i < |trace| && |trace[i].forwards| <= UINT32 && f < |trace[i].forwards|
    requires trace[i].forwards[f].status.Waiting?
    ensures exists more :: Receives(trace[i], more, f)
  {
    InvRun(trace, steps, i);
    CanReceiveIff(trace[i], f);
    NoEntryLost(trace, steps, i, f);
    hide Receives, Inv, IsEntry, Awaited, IsRun;
  }

  /** The state after `n` allocations and nothing else. */
  function Fleet(n: nat): State {
    State(n % UINT64, map[], seq(n, j requires 0 <= j < n => Forward((j + 1) % UINT32, None, Allocated, 0)), [])
  }

  lemma FleetGrows(n: nat)
    ensures Next(Fleet(n), Allocate) == Fleet(n + 1)
  {
    TruncatedSequence(n);
    assert Next(Fleet(n), Allocate).forwards == Fleet(n + 1).forwards;
  }

  /** The bound is sharp: the Forward allocated 2^32 after the first takes over its table entry, and then no
      schedule whatever lets the first receive anything. */
  lemma OrphanAfterWrap() returns (trace: seq<State>, steps: seq<Step>)
    ensures IsRun(trace, steps) && |trace[|steps|].forwards| == UINT32 + 1
    ensures trace[|steps|].forwards[0].status.Waiting? && forall more :: !Receives(trace[|steps|], more, 0)
  {
    var n := UINT32 + 1;
    var s1 := Next(Fleet(n), AddPending(0));
    var s2 := Next(s1, AddPending(UINT32));
    trace := seq(n + 1, i requires 0 <= i <= n => Fleet(i)) + [s1, s2];
    steps := seq(n, i requires 0 <= i < n => Allocate) + [AddPending(0), AddPending(UINT32)];
    forall i | 0 <= i < |steps| ensures StepAt(trace, steps, i) {
      if i < n {
        FleetGrows(i);
        assert trace[i] == Fleet(i) && trace[i + 1] == Fleet(i + 1);
      }
    }
    assert trace[|steps|] == s2;
    InvRun(trace, steps, |steps|);
    assert Lost(s2, 0);
    hide Next, Lost;
    forall more ensures !Receives(s2, more, 0) {
      LostForGood(s2, more, 0);
    }
  }

  // ---- Which handlers can still send ----

  /** A handler that still has to send, on a full slot that its Forward will not read any more. */
  predicate Doomed(st: State, h: nat) {
    && h < |st.handlers| && !st.handlers[h].delivered && st.handlers[h].fwd < |st.forwards|
    && st.forwards[st.handlers[h].fwd].slot.Some? && !st.forwards[st.handlers[h].fwd].status.Waiting?
    && !st.forwards[st.handlers[h].fwd].status.Allocated?
  }

  ghost predicate Delivers(st: State, steps: seq<Step>, h: nat) {
    && Execute(st, steps).Some?
    && h < |Execute(st, steps).value.handlers| && Execute(st, steps).value.handlers[h].delivered
  }

  lemma DoomedStep(st: State, step: Step, h: nat)
    requires Enabled(st, step) && Doomed(st, h)
    ensures Doomed(Next(st, step), h)
  {
  }

  lemma {:induction false} DoomedForGood(st: State, steps: seq<Step>, h: nat)
    requires Doomed(st, h)
    ensures !Delivers(st, steps, h)
    decreases |steps|
  {
    hide Next, Enabled;
    if steps != [] && Enabled(st, steps[0]) {
      DoomedStep(st, steps[0], h);
      DoomedForGood(Next(st, steps[0]), steps[1..], h);
    }
  }

  /** The shortest schedule by which a handler that is not doomed sends. */
  function Rescue(st: State, h: nat): seq<Step>
    requires h < |st.handlers| && st.handlers[h].fwd < |st.forwards|
  {
    if st.forwards[st.handlers[h].fwd].slot.None? then [Deliver(h)] else [Receive(st.handlers[h].fwd), Deliver(h)]
  }

  lemma RescueDelivers(st: State, h: nat)
    requires Inv(st) && h < |st.handlers| && !st.handlers[h].delivered && !Doomed(st, h)
    ensures st.handlers[h].fwd < |st.forwards| && Delivers(st, Rescue(st, h), h)
  {
    assert HandlerOk(st, st.handlers[h]);
    hide Inv;
    var f := st.handlers[h].fwd;
    if st.forwards[f].slot.None? {
      var st1 := Next(st, Deliver(h));
      assert Execute(st1, []) == Some(st1);
      assert Rescue(st, h)[1..] == [];
    } else {
      var st1 := Next(st, Receive(f));
      var st2 := Next(st1, Deliver(h));
      assert Execute(st2, []) == Some(st2);
      assert Rescue(st, h)[1..] == [Deliver(h)] && [Deliver(h)][1..] == [];
      assert Execute(st1, [Deliver(h)]) == Some(st2);
    }
  }

  /** In every reachable state, a handler that has not sent yet can still do so under some schedule if and only
      if its slot is free or its Forward is still waiting. */
  lemma HandlerCanSendIff(trace: seq<State>, steps: seq<Step>, i: nat, h: nat)
    requires IsRun(trace, steps) && i < |trace| && h < |trace[i].handlers| && !trace[i].handlers[h].delivered
    ensures trace[i].handlers[h].fwd < |trace[i].forwards|
    ensures (exists more :: Delivers(trace[i], more, h))
            <==> var f := trace[i].forwards[trace[i].handlers[h].fwd]; f.slot.None? || f.status.Waiting?
  {
    InvRun(trace, steps, i);
    var st := trace[i];
    assert HandlerOk(st, st.handlers[h]);
    if Doomed(st, h) {
      forall more ensures !Delivers(st, more, h) {
        DoomedForGood(st, more, h);
      }
    } else {
      RescueDelivers(st, h);
    }
    hide Delivers, Inv;
  }

  /** And some handlers are: an answer is looked up, its Forward gives up, and before the Forward leaves the table
      a reconnect fills the slot. */
  lemma DoomedHandler(m: Msg) returns (trace: seq<State>)
    requires m.hopByHop == 1
    ensures IsRun(trace, [Allocate, AddPending(0), Lookup(m), Cancel(0), ClearPending])
    ensures Doomed(trace[5], 0)
  {
    var f := Forward(1, None, Allocated, 0);
    var w, c := f.(status := Waiting), f.(status := Cancelled);
    var h := Handler(0, m, false);
    var t1 := State(1, map[], [f], []);
    var t2 := State(1, map[1 := 0], [w], []);
    var t3 := t2.(handlers := [h]);
    var t4 := t3.(forwards := [c]);
    var t5 := State(1, map[], [c.(slot := Some(None))], [h]);
    assert t4.pending[1] == 0 && 0 in t4.pending.Values;
    assert WakeAll([c], t4.pending.Values) == t5.forwards;
    trace := [INIT, t1, t2, t3, t4, t5];
    var steps := [Allocate, AddPending(0), Lookup(m), Cancel(0), ClearPending];
    assert StepAt(trace, steps, 0) && StepAt(trace, steps, 1) && StepAt(trace, steps, 2);
    assert StepAt(trace, steps, 3) && StepAt(trace, steps, 4);
  }

  // ---- How often a Forward leaves ----

  /** The calls of removePending by a Forward among the first `j` steps. */
  function RemovalsIn(steps: seq<Step>, j: nat, f: nat): nat
    requires j <= |steps|
  {
    if j == 0 then 0 else RemovalsIn(steps, j - 1, f) + if steps[j - 1] == RemovePending(f) then 1 else 0
  }

  /** In every run a Forward removes its entry not at all before it has left its wait, at most once after a reply, and
      at most twice after giving up. */
  lemma {:induction false} LeavesAtMostTwice(trace: seq<State>, steps: seq<Step>, j: nat, f: nat)
    requires IsRun(trace, steps) && j < |trace|
    ensures f >= |trace[j].forwards| ==> RemovalsIn(steps, j, f) == 0
    ensures f < |trace[j].forwards| ==>
              && trace[j].forwards[f].removals == RemovalsIn(steps, j, f)
              && RemovalsIn(steps, j, f) <= (match trace[j].forwards[f].status
                                             case Received(_) => 1
                                             case Cancelled => 2
                                             case _ => 0)
  {
    if j > 0 {
      LeavesAtMostTwice(trace, steps, j - 1, f);
      assert StepAt(trace, steps, j - 1);
    }
  }

  /** And it can: until then the removal is always possible. */
  lemma CanLeave(st: State, f: nat)
    requires f < |st.forwards|
    ensures st.forwards[f].status.Received? && st.forwards[f].removals < 1 ==> Enabled(st, RemovePending(f))
    ensures st.forwards[f].status.Cancelled? && st.forwards[f].removals < 2 ==> Enabled(st, RemovePending(f))
  {
  }

  // ---- Where what is received comes from ----

  /** An answer `m` was looked up in the first `j` steps while the Forward was the entry of its identifier. */
  ghost predicate LookedUp(trace: seq<State>, steps: seq<Step>, j: nat, f: nat, m: Msg)
    requires j <= |steps| <= |trace|
  {
    exists k | 0 <= k < j :: steps[k] == Lookup(m) && m.hopByHop in trace[k].pending && trace[k].pending[m.hopByHop] == f
  }

  /** A reconnect came in the first `j` steps while the Forward was in the table. */
  ghost predicate Reconnected(trace: seq<State>, steps: seq<Step>, j: nat, f: nat)
    requires j <= |steps| <= |trace|
  {
    exists k | 0 <= k < j :: steps[k].ClearPending? && IsEntry(trace[k], f)
  }

  /** A message, or nil, has a cause among the first `j` steps. */
  ghost predicate Caused(trace: seq<State>, steps: seq<Step>, j: nat, f: nat, reply: Option<Msg>)
    requires j <= |steps| <= |trace|
  {
    if reply.Some? then LookedUp(trace, steps, j, f, reply.value) else Reconnected(trace, steps, j, f)
  }

  ghost predicate OriginsOk(trace: seq<State>, steps: seq<Step>, j: nat)
    requires j <= |steps| < |trace|
  {
    && (forall h | 0 <= h < |trace[j].handlers| ::
          LookedUp(trace, steps, j, trace[j].handlers[h].fwd, trace[j].handlers[h].msg))
    && (forall f | 0 <= f < |trace[j].forwards| && trace[j].forwards[f].slot.Some? ::
          Caused(trace, steps, j, f, trace[j].forwards[f].slot.value))
    && (forall f | 0 <= f < |trace[j].forwards| && trace[j].forwards[f].status.Received? ::
          Caused(trace, steps, j, f, trace[j].forwards[f].status.reply))
  }

  lemma CausedLater(trace: seq<State>, steps: seq<Step>, j: nat, f: nat, reply: Option<Msg>)
    requires j < |steps| <= |trace| && Caused(trace, steps, j, f, reply)
    ensures Caused(trace, steps, j + 1, f, reply)
  {
    if reply.Some? {
      var k :| 0 <= k < j && steps[k] == Lookup(reply.value) && reply.value.hopByHop in trace[k].pending
               && trace[k].pending[reply.value.hopByHop] == f;
      assert k < j + 1;
    } else {
      var k :| 0 <= k < j && steps[k].ClearPending? && IsEntry(trace[k], f);
      assert k < j + 1;
    }
  }

  lemma HandlerOrigin(trace: seq<State>, steps: seq<Step>, j: nat, h: nat)
    requires IsRun(trace, steps) && j < |steps| && OriginsOk(trace, steps, j) && h < |trace[j + 1].handlers|
    ensures LookedUp(trace, steps, j + 1, trace[j + 1].handlers[h].fwd, trace[j + 1].handlers[h].msg)
  {
    assert StepAt(trace, steps, j);
    var hd := trace[j + 1].handlers[h];
    if h < |trace[j].handlers| {
      assert hd.fwd == trace[j].handlers[h].fwd && hd.msg == trace[j].handlers[h].msg;
      assert Caused(trace, steps, j, hd.fwd, Some(hd.msg));
      CausedLater(trace, steps, j, hd.fwd, Some(hd.msg));
    }
  }

  lemma SlotOrigin(trace: seq<State>, steps: seq<Step>, j: nat, f: nat)
    requires IsRun(trace, steps) && j < |steps| && OriginsOk(trace, steps, j)
    requires f < |trace[j + 1].forwards| && trace[j + 1].forwards[f].slot.Some?
    ensures Caused(trace, steps, j + 1, f, trace[j + 1].forwards[f].slot.value)
  {
    assert StepAt(trace, steps, j);
    var st, now := trace[j], trace[j + 1].forwards[f].slot;
    if f < |st.forwards| && st.forwards[f].slot == now {
      CausedLater(trace, steps, j, f, now.value);
    } else if steps[j].Deliver? {
      var hd := st.handlers[steps[j].handler];
      assert hd.fwd == f && now.value == Some(hd.msg);
      assert LookedUp(trace, steps, j, f, hd.msg);
      CausedLater(trace, steps, j, f, now.value);
    } else {
      InvRun(trace, steps, j);
      assert steps[j].ClearPending?;
      ClearWakesIff(st, f);
      assert IsEntry(st, f) && now == Some(None);
    }
  }

  lemma ReplyOrigin(trace: seq<State>, steps: seq<Step>, j: nat, f: nat)
    requires IsRun(trace, steps) && j < |steps| && OriginsOk(trace, steps, j)
    requires f < |trace[j + 1].forwards| && trace[j + 1].forwards[f].status.Received?
    ensures Caused(trace, steps, j + 1, f, trace[j + 1].forwards[f].status.reply)
  {
    assert StepAt(trace, steps, j);
    var st, reply := trace[j], trace[j + 1].forwards[f].status.reply;
    assert f < |st.forwards|;
    if steps[j] == Receive(f) {
      assert st.forwards[f].slot == Some(reply);
    } else {
      assert st.forwards[f].status.Received? && st.forwards[f].status.reply == reply;
    }
    CausedLater(trace, steps, j, f, reply);
  }

  lemma {:induction false} OriginsRun(trace: seq<State>, steps: seq<Step>, j: nat)
    requires IsRun(trace, steps) && j <= |steps|
    ensures OriginsOk(trace, steps, j)
  {
    if j > 0 {
      OriginsRun(trace, steps, j - 1);
      forall h | 0 <= h < |trace[j].handlers|
        ensures LookedUp(trace, steps, j, trace[j].handlers[h].fwd, trace[j].handlers[h].msg)
      {
        HandlerOrigin(trace, steps, j - 1, h);
      }
      forall f | 0 <= f < |trace[j].forwards| && trace[j].forwards[f].slot.Some?
        ensures Caused(trace, steps, j, f, trace[j].forwards[f].slot.value)
      {
        SlotOrigin(trace, steps, j - 1, f);
      }
      forall f | 0 <= f < |trace[j].forwards| && trace[j].forwards[f].status.Received?
        ensures Caused(trace, steps, j, f, trace[j].forwards[f].status.reply)
      {
        ReplyOrigin(trace, steps, j - 1, f);
      }
      hide IsRun, LookedUp, Caused;
    }
  }

  /** In every run, a message that a Forward has received is, body and all, one that was looked up while the Forward
      was the entry of its identifier; and a nil comes from a reconnect while it was in the table. */
  lemma ReceivedHasCause(trace: seq<State>, steps: seq<Step>, j: nat, f: nat)
    requires IsRun(trace, steps) && j <= |steps| && f < |trace[j].forwards| && trace[j].forwards[f].status.Received?
    ensures trace[j].forwards[f].status.reply.Some? ==>
              LookedUp(trace, steps, j, f, trace[j].forwards[f].status.reply.value)
    ensures trace[j].forwards[f].status.reply.None? ==> Reconnected(trace, steps, j, f)
  {
    OriginsRun(trace, steps, j);
    hide IsRun, LookedUp, Reconnected;
  }

  /** What a handler sends stays in the slot until the Forward takes it. */
  lemma {:induction false} SentStays(trace: seq<State>, steps: seq<Step>, i: nat, j: nat, h: nat)
    requires IsRun(trace, steps) && i < j < |trace| && steps[i] == Deliver(h)
    requires h < |trace[i].handlers| && forall k | i < k < j :: steps[k] != Receive(trace[i].handlers[h].fwd)
    ensures var f := trace[i].handlers[h].fwd;
            f < |trace[j].forwards| && trace[j].forwards[f].slot == Some(Some(trace[i].handlers[h].msg))
  {
    assert StepAt(trace, steps, j - 1);
    if j > i + 1 { SentStays(trace, steps, i, j - 1, h); }
  }

  lemma {:induction false} ReceivedStays(trace: seq<State>, steps: seq<Step>, i: nat, j: nat, f: nat)
    requires IsRun(trace, steps) && i <= j < |trace| && f < |trace[i].forwards| && trace[i].forwards[f].status.Received?
    ensures f < |trace[j].forwards| && trace[j].forwards[f].status == trace[i].forwards[f].status
  {
    if i < j {
      ReceivedStays(trace, steps, i, j - 1, f);
      assert StepAt(trace, steps, j - 1);
    }
  }

  /** And the Forward takes exactly that: if it receives at step `j`, with nothing taken since the handler sent at
      step `i`, then from then on what it has received is the handler's message. */
  lemma SentIsReceived(trace: seq<State>, steps: seq<Step>, i: nat, j: nat, n: nat, h: nat)
    requires IsRun(trace, steps) && i < j < n < |trace| && steps[i] == Deliver(h) && h < |trace[i].handlers|
    requires steps[j] == Receive(trace[i].handlers[h].fwd)
    requires forall k | i < k < j :: steps[k] != Receive(trace[i].handlers[h].fwd)
    ensures var f := trace[i].handlers[h].fwd;
            f < |trace[n].forwards| && trace[n].forwards[f].status == Received(Some(trace[i].handlers[h].msg))
  {
    SentStays(trace, steps, i, j, h);
    assert StepAt(trace, steps, j);
    ReceivedStays(trace, steps, j + 1, n, trace[i].handlers[h].fwd);
  }

  // ---- The forwarder's table as it runs ----

  class DiamForwarder {
    var hopByHopSeq: nat
    var pending: map<nat, nat>
    var forwards: seq<Forward>
    var handlers: seq<Handler>

    ghost function View(): State
      reads this
    {
      State(hopByHopSeq, pending, forwards, handlers)
    }

    constructor ()
      ensures View() == INIT && Inv(View())
    {
      hopByHopSeq, pending, forwards, handlers := 0, map[], [], [];
    }

    method NextHopByHopID() returns (id: nat)
      requires Inv(View())
      modifies this
      ensures View() == Next(old(View()), Allocate) && Inv(View())
      ensures id == forwards[|old(forwards)|].hopByHop == (|old(forwards)| + 1) % UINT32
    {
      InvStep(View(), Allocate);
      TruncatedSequence(|forwards|);
      hopByHopSeq := NextSeq(hopByHopSeq);
      id := hopByHopSeq % UINT32;
      forwards := forwards + [Forward(id, None, Allocated, 0)];
    }

    method Enter(f: nat)
      requires Inv(View()) && Enabled(View(), AddPending(f))
      modifies this
      ensures View() == Next(old(View()), AddPending(f)) && Inv(View())
    {
      InvStep(View(), AddPending(f));
      pending := pending[forwards[f].hopByHop := f];
      forwards := forwards[f := forwards[f].(status := Waiting)];
    }

    /** The select in Forward: the reply in the channel, or None when the context is done first. */
    method Await(f: nat, cancelled: bool) returns (reply: Option<Option<Msg>>)
      requires Inv(View()) && Enabled(View(), if cancelled then Cancel(f) else Receive(f))
      modifies this
      ensures View() == Next(old(View()), if cancelled then Cancel(f) else Receive(f)) && Inv(View())
      ensures reply == if cancelled then None else Some(forwards[f].status.reply)
      ensures reply.Some? && reply.value.Some? ==> reply.value.value.hopByHop == old(forwards)[f].hopByHop
    {
      InvStep(View(), if cancelled then Cancel(f) else Receive(f));
      if cancelled {
        forwards := forwards[f := forwards[f].(status := Cancelled)];
        return None;
      }
      reply := forwards[f].slot;
      assert ForwardOk(forwards[f], f);
      forwards := forwards[f := forwards[f].(slot := None, status := Received(reply.value))];
    }

    method Leave(f: nat)
      requires Inv(View()) && Enabled(View(), RemovePending(f))
      modifies this
      ensures View() == Next(old(View()), RemovePending(f)) && Inv(View())
    {
      InvStep(View(), RemovePending(f));
      pending := pending - {forwards[f].hopByHop};
      forwards := forwards[f := forwards[f].(removals := forwards[f].removals + 1)];
    }

    /** handleDEA up to its send; `found` says whether a channel was there to send on. */
    method HandleDEA(m: Msg) returns (found: bool)
      requires Inv(View())
      modifies this
      ensures View() == Next(old(View()), Lookup(m)) && Inv(View()) && found == (m.hopByHop in pending)
    {
      InvStep(View(), Lookup(m));
      found := m.hopByHop in pending;
      if found {
        handlers := handlers + [Handler(pending[m.hopByHop], m, false)];
      }
    }

    /** The send of handleDEA, once the slot is free. */
    method Send(h: nat)
      requires Inv(View()) && Enabled(View(), Deliver(h))
      modifies this
      ensures View() == Next(old(View()), Deliver(h)) && Inv(View())
    {
      InvStep(View(), Deliver(h));
      var f := handlers[h].fwd;
      forwards := forwards[f := forwards[f].(slot := Some(Some(handlers[h].msg)))];
      handlers := handlers[h := handlers[h].(delivered := true)];
    }

    /** The first loop of clearPending: a nil into every free slot of the table. */
    method WakeEntries()
      requires forall id | id in pending :: pending[id] < |forwards|
      modifies this`forwards
      ensures forwards == WakeAll(old(forwards), pending.Values)
    {
      var todo, woken := pending.Keys, {};
      while todo != {}
        invariant todo <= pending.Keys
        invariant woken == set id | id in pending.Keys - todo :: pending[id]
        invariant forwards == WakeAll(old(forwards), woken)
        decreases todo
      {
        var id :| id in todo;
        var f := pending[id];
        if forwards[f].slot.None? {
          forwards := forwards[f := forwards[f].(slot := Some(None))];
        }
        todo, woken := todo - {id}, woken + {f};
      }
      assert woken == pending.Values;
    }

    /** The second loop: the entries go one by one. */
    method DropEntries()
      modifies this`pending
      ensures pending == map[]
    {
      var ids := pending.Keys;
      while ids != {}
        invariant pending.Keys == ids
        decreases ids
      {
        var id :| id in ids;
        pending, ids := pending - {id}, ids - {id};
      }
    }

    method Clear()
      requires Inv(View())
      modifies this
      ensures View() == Next(old(View()), ClearPending) && Inv(View())
    {
      InvStep(View(), ClearPending);
      forall id | id in pending ensures pending[id] < |forwards| { assert EntryOk(View(), id); }
      hide Inv, WakeAll;
      WakeEntries();
      DropEntries();
    }
  }
}
