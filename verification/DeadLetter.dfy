/** The two dead-letter queues: server-initiated messages of the AAA gateway, and AMF notifications. Both pop at
    the right end of a Redis list and retry; the gateway pushes a failed message back at the right end, so it
    is the next one popped, while AMF notifications go back to the left end. */
module DeadLetter {
  import opened Base

  /** A limit of None never runs out (AMF notifications with MaxAttempts of zero or less). */
  datatype Item = Item(id: string, attempts: int, limit: Option<int>)

  datatype Entry = Message(item: Item) | Malformed

  datatype Delivery = NoTarget | Refused | Accepted

  /** What the surroundings do with one popped message. */
  datatype Outcome = Outcome(delivery: Delivery, requeued: bool)

  /** The list, what became of the messages that left it, and the delivery attempts made. */
  datatype Queue = Queue(list: seq<Entry>, delivered: multiset<string>, exhausted: multiset<string>,
                         lost: multiset<string>, tries: multiset<string>)

  predicate Exhausted(item: Item) { item.limit.Some? && item.attempts >= item.limit.value }

  function Requeue(list: seq<Entry>, entry: Entry, atRight: bool): seq<Entry> {
    if atRight then list + [entry] else [entry] + list
  }

  /** Pop one entry; malformed and exhausted ones go no further. */
  function Popped(q: Queue): (Queue, Option<Item>) {
    if q.list == [] then (q, None)
    else
      var last, q' := q.list[|q.list| - 1], q.(list := q.list[..|q.list| - 1]);
      if last.Malformed? then (q', None)
      else if Exhausted(last.item) then (q'.(exhausted := q.exhausted + multiset{last.item.id}), None)
      else (q', Some(last.item))
  }

  /** Deal with a popped message. */
  function Settled(q: Queue, item: Item, o: Outcome, atRight: bool): Queue {
    var q' := if o.delivery.NoTarget? then q else q.(tries := q.tries + multiset{item.id});
    if o.delivery.Accepted? then q'.(delivered := q.delivered + multiset{item.id})
    else if o.requeued then q'.(list := Requeue(q.list, Message(item.(attempts := item.attempts + 1)), atRight))
    else q'.(lost := q.lost + multiset{item.id})
  }

  function Next(q: Queue, o: Outcome, atRight: bool): Queue {
    var (q', item) := Popped(q);
    if item.Some? then Settled(q', item.value, o, atRight) else q'
  }

  function Run(q: Queue, outcomes: seq<Outcome>, atRight: bool): Queue {
    if outcomes == [] then q else Next(Run(q, outcomes[..|outcomes| - 1], atRight), outcomes[|outcomes| - 1], atRight)
  }

  // ---- Sums over the list ----

  predicate Bounded(list: seq<Entry>) { forall e | e in list && e.Message? :: e.item.limit.Some? }

  /** How many more times an entry can be popped. */
  function Weight(e: Entry): nat {
    if e.Message? && e.item.limit.Some? then Max(1, e.item.limit.value + 1 - e.item.attempts) else 1
  }

  function Pops(list: seq<Entry>): nat {
    if list == [] then 0 else Pops(list[..|list| - 1]) + Weight(list[|list| - 1])
  }

  /** How many more delivery attempts the entries with an ID can get. */
  function Left(e: Entry, id: string): nat {
    if e.Message? && e.item.id == id && e.item.limit.Some? then Max(0, e.item.limit.value - e.item.attempts) else 0
  }

  function TriesLeft(list: seq<Entry>, id: string): nat {
    if list == [] then 0 else TriesLeft(list[..|list| - 1], id) + Left(list[|list| - 1], id)
  }

  function Holds(e: Entry, id: string): nat { if e.Message? && e.item.id == id then 1 else 0 }

  function Queued(list: seq<Entry>, id: string): nat {
    if list == [] then 0 else Queued(list[..|list| - 1], id) + Holds(list[|list| - 1], id)
  }

  /** Pushing an entry at either end adds its share to every sum. */
  lemma {:induction false} SumsAtLeft(e: Entry, list: seq<Entry>, id: string)
    ensures Pops([e] + list) == Weight(e) + Pops(list)
    ensures TriesLeft([e] + list, id) == Left(e, id) + TriesLeft(list, id)
    ensures Queued([e] + list, id) == Holds(e, id) + Queued(list, id)
  {
    if list == [] {
      assert [e] + list == [e] && [e][..0] == [];
    } else {
      SumsAtLeft(e, list[..|list| - 1], id);
      assert ([e] + list)[..|list|] == [e] + list[..|list| - 1];
    }
  }

  lemma RequeueSums(list: seq<Entry>, e: Entry, atRight: bool, id: string)
    ensures Pops(Requeue(list, e, atRight)) == Weight(e) + Pops(list)
    ensures TriesLeft(Requeue(list, e, atRight), id) == Left(e, id) + TriesLeft(list, id)
    ensures Queued(Requeue(list, e, atRight), id) == Holds(e, id) + Queued(list, id)
  {
    SumsAtLeft(e, list, id);
    assert (list + [e])[..|list|] == list;
  }

  // ---- Termination ----

  lemma PoppedShrinks(q: Queue)
    requires Bounded(q.list)
    ensures var (q', item) := Popped(q);
            && Bounded(q'.list)
            && (q.list != [] && item.None? ==> Pops(q'.list) < Pops(q.list))
            && (item.Some? ==>
                  && item.value.limit.Some? && item.value.attempts < item.value.limit.value
                  && Pops(q.list) == Pops(q'.list) + item.value.limit.value + 1 - item.value.attempts)
  {
    if q.list != [] {
      assert q.list[|q.list| - 1] in q.list;
      assert forall e | e in q.list[..|q.list| - 1] :: e in q.list;
    }
  }

  lemma RequeueBounded(list: seq<Entry>, e: Entry, atRight: bool)
    requires Bounded(list) && e.Message? && e.item.limit.Some?
    ensures Bounded(Requeue(list, e, atRight))
  {
  }

  lemma NextShrinks(q: Queue, o: Outcome, atRight: bool)
    requires Bounded(q.list)
    ensures Bounded(Next(q, o, atRight).list)
    ensures q.list != [] ==> Pops(Next(q, o, atRight).list) < Pops(q.list)
  {
    PoppedShrinks(q);
    hide Pops, Popped;
    var (q', item) := Popped(q);
    if item.Some? {
      var retry := Message(item.value.(attempts := item.value.attempts + 1));
      RequeueSums(q'.list, retry, atRight, "");
      RequeueBounded(q'.list, retry, atRight);
      hide Requeue, Bounded;
    }
  }

  lemma {:induction false} RunShrinks(q: Queue, outcomes: seq<Outcome>, atRight: bool)
    requires Bounded(q.list)
    ensures Bounded(Run(q, outcomes, atRight).list)
    ensures Run(q, outcomes, atRight).list == [] || Pops(Run(q, outcomes, atRight).list) + |outcomes| <= Pops(q.list)
  {
    if outcomes != [] {
      RunShrinks(q, outcomes[..|outcomes| - 1], atRight);
      NextShrinks(Run(q, outcomes[..|outcomes| - 1], atRight), outcomes[|outcomes| - 1], atRight);
    }
  }

  lemma {:induction false} PopsPositive(list: seq<Entry>)
    ensures Pops(list) >= |list|
  {
    if list != [] { PopsPositive(list[..|list| - 1]); }
  }

  /** Without new pushes a queue of bounded messages is empty after as many pops as the sum over its entries of
      (limit + 1 - attempts), at least one each, whatever happens to the deliveries and requeues. */
  lemma QueueDrains(q: Queue, outcomes: seq<Outcome>, atRight: bool)
    requires Bounded(q.list) && |outcomes| >= Pops(q.list)
    ensures Run(q, outcomes, atRight).list == []
  {
    RunShrinks(q, outcomes, atRight);
    PopsPositive(Run(q, outcomes, atRight).list);
  }

  /** Refused and put back, whatever is popped. */
  const REFUSED := Outcome(Refused, true)

  lemma RefusedKeepsUnlimited(q: Queue, atRight: bool)
    requires !Bounded(q.list)
    ensures !Bounded(Next(q, REFUSED, atRight).list)
  {
    var n := |q.list| - 1;
    var e :| e in q.list && e.Message? && e.item.limit.None?;
    var q' := Next(q, REFUSED, atRight);
    if e == q.list[n] {
      assert Message(e.item.(attempts := e.item.attempts + 1)) in q'.list;
    } else {
      assert e in q.list[..n];
      assert e in q'.list;
    }
  }

  /** A message without a limit, in whatever company, can keep a queue from draining for ever. */
  lemma {:induction false} UnlimitedNeverDrains(q: Queue, n: nat, atRight: bool)
    requires !Bounded(q.list)
    ensures !Bounded(Run(q, seq(n, _ => REFUSED), atRight).list)
  {
    hide Next, Bounded;
    if n > 0 {
      assert seq(n, _ => REFUSED)[..n - 1] == seq(n - 1, _ => REFUSED);
      UnlimitedNeverDrains(q, n - 1, atRight);
      RefusedKeepsUnlimited(Run(q, seq(n - 1, _ => REFUSED), atRight), atRight);
    }
  }

  ghost predicate DrainsIn(q: Queue, n: nat, atRight: bool) {
    forall outcomes | |outcomes| >= n :: Run(q, outcomes, atRight).list == []
  }

  lemma UnlimitedNotIn(q: Queue, n: nat, atRight: bool)
    requires !Bounded(q.list)
    ensures !DrainsIn(q, n, atRight)
  {
    UnlimitedNeverDrains(q, n, atRight);
    hide Run;
    var outcomes := seq(n, _ => REFUSED);
    assert Run(q, outcomes, atRight).list != [] && |outcomes| >= n;
  }

  /** So a queue is sure to drain, in any number of pops and in particular in that one, if and only if all its
      messages have a limit. */
  lemma DrainsIff(q: Queue, atRight: bool)
    ensures Bounded(q.list) <==> DrainsIn(q, Pops(q.list), atRight)
    ensures Bounded(q.list) <==> exists n: nat :: DrainsIn(q, n, atRight)
  {
    if Bounded(q.list) {
      forall outcomes | |outcomes| >= Pops(q.list) ensures Run(q, outcomes, atRight).list == [] {
        QueueDrains(q, outcomes, atRight);
      }
      assert DrainsIn(q, Pops(q.list), atRight);
    } else {
      forall n: nat ensures !DrainsIn(q, n, atRight) {
        UnlimitedNotIn(q, n, atRight);
      }
    }
    hide DrainsIn;
  }

  // ---- Deliveries and conservation ----

  /** How often an ID is in the list or has left it. */
  function Places(q: Queue, id: string): nat {
    Queued(q.list, id) + q.delivered[id] + q.exhausted[id] + q.lost[id]
  }

  lemma PoppedPlaces(q: Queue, id: string)
    ensures var (q', item) := Popped(q);
            Places(q, id) == Places(q', id) + if item.Some? && item.value.id == id then 1 else 0
  {
  }

  lemma SettledPlaces(q: Queue, item: Item, o: Outcome, atRight: bool, id: string)
    ensures Places(Settled(q, item, o, atRight), id) == Places(q, id) + if item.id == id then 1 else 0
  {
    RequeueSums(q.list, Message(item.(attempts := item.attempts + 1)), atRight, id);
    hide Queued, Requeue;
  }

  lemma NextPlaces(q: Queue, o: Outcome, atRight: bool, id: string)
    ensures Places(Next(q, o, atRight), id) == Places(q, id)
  {
    PoppedPlaces(q, id);
    var (q', item) := Popped(q);
    if item.Some? { SettledPlaces(q', item.value, o, atRight, id); }
    hide Popped, Settled, Places;
  }

  lemma {:induction false} RunPlaces(q: Queue, outcomes: seq<Outcome>, atRight: bool, id: string)
    ensures Places(Run(q, outcomes, atRight), id) == Places(q, id)
  {
    if outcomes != [] {
      RunPlaces(q, outcomes[..|outcomes| - 1], atRight, id);
      NextPlaces(Run(q, outcomes[..|outcomes| - 1], atRight), outcomes[|outcomes| - 1], atRight, id);
    }
  }

  /** The messages with this ID have a limit; others need not. */
  predicate Limited(list: seq<Entry>, id: string) {
    forall e | e in list && e.Message? && e.item.id == id :: e.item.limit.Some?
  }

  lemma PoppedTries(q: Queue, id: string)
    requires Limited(q.list, id)
    ensures var (q', item) := Popped(q);
            && Limited(q'.list, id) && q'.tries == q.tries
            && TriesLeft(q'.list, id) <= TriesLeft(q.list, id)
            && (item.Some? && item.value.id == id ==>
                  && item.value.limit.Some? && item.value.attempts < item.value.limit.value
                  && TriesLeft(q.list, id) == TriesLeft(q'.list, id) + item.value.limit.value - item.value.attempts)
  {
    if q.list != [] {
      assert q.list[|q.list| - 1] in q.list;
      assert forall e | e in q.list[..|q.list| - 1] :: e in q.list;
    }
  }

  /** Dealing with a popped message uses up the attempt it makes. */
  lemma SettledTries(q: Queue, item: Item, o: Outcome, atRight: bool, id: string)
    requires Limited(q.list, id)
    requires item.id == id ==> item.limit.Some? && item.attempts < item.limit.value
    ensures var q', left := Settled(q, item, o, atRight), if item.id == id then item.limit.value - item.attempts else 0;
            && Limited(q'.list, id)
            && q'.tries[id] + TriesLeft(q'.list, id) <= q.tries[id] + TriesLeft(q.list, id) + left
  {
    var q', retry := Settled(q, item, o, atRight), Message(item.(attempts := item.attempts + 1));
    assert q'.tries[id] <= q.tries[id] + if item.id == id then 1 else 0;
    if !o.delivery.Accepted? && o.requeued {
      assert q'.list == Requeue(q.list, retry, atRight);
      RequeueSums(q.list, retry, atRight, id);
      RequeueLimited(q.list, retry, atRight, id);
      assert Left(retry, id) == if item.id == id then item.limit.value - item.attempts - 1 else 0;
    } else {
      assert q'.list == q.list;
    }
    hide Settled, Requeue, Limited, TriesLeft, Left;
  }

  lemma NextTries(q: Queue, o: Outcome, atRight: bool, id: string)
    requires Limited(q.list, id)
    ensures var q' := Next(q, o, atRight);
            && Limited(q'.list, id)
            && q'.tries[id] + TriesLeft(q'.list, id) <= q.tries[id] + TriesLeft(q.list, id)
  {
    PoppedTries(q, id);
    var (q', item) := Popped(q);
    if item.Some? { SettledTries(q', item.value, o, atRight, id); }
    hide Popped, Settled, Limited, TriesLeft;
  }

  lemma RequeueLimited(list: seq<Entry>, e: Entry, atRight: bool, id: string)
    requires Limited(list, id) && e.Message? && (e.item.id == id ==> e.item.limit.Some?)
    ensures Limited(Requeue(list, e, atRight), id)
  {
  }

  lemma {:induction false} RunTries(q: Queue, outcomes: seq<Outcome>, atRight: bool, id: string)
    requires Limited(q.list, id)
    ensures var q' := Run(q, outcomes, atRight);
            && Limited(q'.list, id)
            && q'.tries[id] + TriesLeft(q'.list, id) <= q.tries[id] + TriesLeft(q.list, id)
  {
    hide Next, Limited;
    if outcomes != [] {
      RunTries(q, outcomes[..|outcomes| - 1], atRight, id);
      NextTries(Run(q, outcomes[..|outcomes| - 1], atRight), outcomes[|outcomes| - 1], atRight, id);
    }
  }

  function Fresh(list: seq<Entry>): Queue { Queue(list, multiset{}, multiset{}, multiset{}, multiset{}) }

  /** A message with a limit gets no more delivery attempts than it had left when it was queued, whatever else
      is in the queue. */
  lemma DeliveriesBounded(list: seq<Entry>, outcomes: seq<Outcome>, atRight: bool, id: string)
    requires Limited(list, id)
    ensures Run(Fresh(list), outcomes, atRight).tries[id] <= TriesLeft(list, id)
  {
    RunTries(Fresh(list), outcomes, atRight, id);
  }

  /** Every well-formed message that was queued once is, at any time, in exactly one of four places: still in the
      list once, delivered, exhausted, or lost to a failed requeue. */
  lemma ExactlyOnePlace(list: seq<Entry>, outcomes: seq<Outcome>, atRight: bool, id: string)
    requires Queued(list, id) == 1
    ensures var q := Run(Fresh(list), outcomes, atRight);
            Queued(q.list, id) + q.delivered[id] + q.exhausted[id] + q.lost[id] == 1
  {
    RunPlaces(Fresh(list), outcomes, atRight, id);
  }

  // ---- AMF notifications that enter the queue ----

  function AmfItem(id: string, attempts: int, maxAttempts: int): Item {
    Item(id, attempts, if maxAttempts > 0 then Some(maxAttempts) else None)
  }

  /** How often the direct sender tries at most: zero stands for three. */
  function DirectTries(maxAttempts: int): nat { if maxAttempts == 0 then 3 else Max(0, maxAttempts) }

  /** sendNotification: direct attempts until one succeeds, the context is cancelled between two of them, or
      they run out; then the notification is queued with the attempts it has used. */
  method SendNotification(id: string, maxAttempts: int, succeeds: nat -> bool, cancelled: nat -> bool)
    returns (queued: Option<Item>, used: nat)
    ensures used <= DirectTries(maxAttempts)
    ensures queued.Some? ==> queued.value == AmfItem(id, used, maxAttempts) && forall i | 0 <= i < used :: !succeeds(i)
    ensures queued.None? ==> used > 0 && succeeds(used - 1) && forall i | 0 <= i < used - 1 :: !succeeds(i)
    ensures forall i | 0 <= i < used - 1 :: !cancelled(i)
    ensures queued.Some? ==> used == DirectTries(maxAttempts) || (used > 0 && cancelled(used - 1))
  {
    var limit := if maxAttempts == 0 then 3 else maxAttempts;
    used := 0;
    while used < limit
      invariant used <= Max(0, limit)
      invariant forall i | 0 <= i < used :: !succeeds(i)
      invariant forall i | 0 <= i < used && i + 1 < limit :: !cancelled(i)
    {
      used := used + 1;
      if succeeds(used - 1) {
        return None, used;
      }
      if used < limit && cancelled(used - 1) {
        return Some(AmfItem(id, used, maxAttempts)), used;
      }
    }
    return Some(AmfItem(id, used, maxAttempts)), used;
  }

  /** When a notification that used up its direct attempts comes up, it is offered to the AMF again if and only if
      MaxAttempts is not positive; otherwise it is discarded and nothing else changes. */
  lemma ExhaustedNotificationRetriedIff(q: Queue, front: seq<Entry>, id: string, maxAttempts: int, o: Outcome)
    requires q.list == front + [Message(AmfItem(id, DirectTries(maxAttempts), maxAttempts))]
    requires !o.delivery.NoTarget?
    ensures var q' := Next(q, o, false);
            && q'.tries == q.tries + (if maxAttempts <= 0 then multiset{id} else multiset{})
            && (maxAttempts > 0 ==> q' == q.(list := front, exhausted := q.exhausted + multiset{id}))
  {
    assert q.list[..|q.list| - 1] == front;
  }

  // ---- What counts as an attempt ----

  /** A pop offers the message it takes, exactly if it finds a target; a failed offer and a missing target alike cost the
      message one attempt when it is put back. */
  lemma OffersExactly(q: Queue, o: Outcome, atRight: bool)
    ensures var (q0, item), q' := Popped(q), Next(q, o, atRight);
            && q'.tries == q.tries + (if item.Some? && !o.delivery.NoTarget? then multiset{item.value.id} else multiset{})
            && q'.delivered == q.delivered + (if item.Some? && o.delivery.Accepted? then multiset{item.value.id} else multiset{})
            && (item.Some? && !o.delivery.Accepted? && o.requeued ==>
                  Message(item.value.(attempts := item.value.attempts + 1)) in q'.list)
  {
    hide Exhausted;
  }

  /** The direct sender tries three times unless told otherwise, and not at all for a negative number. */
  lemma DirectTriesAre(maxAttempts: nat)
    ensures DirectTries(0) == 3 && DirectTries(-1 - maxAttempts) == 0
    ensures maxAttempts > 0 ==> DirectTries(maxAttempts) == maxAttempts
  {
  }

  // ---- In which order ----

  const ACCEPTED := Outcome(Accepted, true)

  /** A message that is refused, or finds no target, and put back by the gateway is the next one popped. */
  lemma RefusedGatewayIsNext(q: Queue, front: seq<Entry>, item: Item, o: Outcome)
    requires q.list == front + [Message(item)] && !Exhausted(item) && !o.delivery.Accepted? && o.requeued
    ensures var retry, q' := item.(attempts := item.attempts + 1), Next(q, o, true);
            && q'.list == front + [Message(retry)]
            && (!Exhausted(retry) ==> Popped(q').1 == Some(retry))
  {
    assert q.list[..|q.list| - 1] == front;
    assert (front + [Message(item.(attempts := item.attempts + 1))])[..|front|] == front;
  }

  lemma AmfGoesLast(q: Queue, front: seq<Entry>, item: Item)
    requires q.list == front + [Message(item)] && !Exhausted(item)
    ensures Next(q, REFUSED, false).list == [Message(item.(attempts := item.attempts + 1))] + front
  {
    assert q.list[..|q.list| - 1] == front;
  }

  lemma {:induction false} AcceptedPops(q: Queue, n: nat, atRight: bool)
    requires n <= |q.list|
    ensures Run(q, seq(n, _ => ACCEPTED), atRight).list == q.list[..|q.list| - n]
  {
    hide Next;
    if n > 0 {
      AcceptedPops(q, n - 1, atRight);
      assert seq(n, _ => ACCEPTED)[..n - 1] == seq(n - 1, _ => ACCEPTED);
      AcceptedNext(Run(q, seq(n - 1, _ => ACCEPTED), atRight), atRight);
      assert q.list[..|q.list| - n + 1][..|q.list| - n] == q.list[..|q.list| - n];
    } else {
      assert q.list[..|q.list|] == q.list;
    }
  }

  /** A notification that the AMF refuses is popped again only after everything else that was queued: when that has
      been popped and accepted, it alone is left. */
  lemma RefusedAmfIsLast(q: Queue, front: seq<Entry>, item: Item)
    requires q.list == front + [Message(item)] && !Exhausted(item)
    ensures Run(Next(q, REFUSED, false), seq(|front|, _ => ACCEPTED), false).list
            == [Message(item.(attempts := item.attempts + 1))]
  {
    AmfGoesLast(q, front, item);
    hide Next, Run;
    AcceptedPops(Next(q, REFUSED, false), |front|, false);
    var retry := Message(item.(attempts := item.attempts + 1));
    assert ([retry] + front)[..1] == [retry];
  }

  // ---- Which messages are ever offered ----

  /** Some message with this ID has not used up its attempts. */
  ghost predicate Alive(list: seq<Entry>, id: string) {
    exists e | e in list :: e.Message? && e.item.id == id && !Exhausted(e.item)
  }

  ghost predicate Offers(list: seq<Entry>, outcomes: seq<Outcome>, atRight: bool, id: string) {
    id in Run(Fresh(list), outcomes, atRight).tries
  }

  lemma {:induction false} DeadHaveNoTries(list: seq<Entry>, id: string)
    requires !Alive(list, id)
    ensures Limited(list, id) && TriesLeft(list, id) == 0
  {
    if list != [] {
      var front, last := list[..|list| - 1], list[|list| - 1];
      assert last in list && forall e | e in front :: e in list;
      DeadHaveNoTries(front, id);
      assert forall e | e in list :: e in front || e == last;
    }
  }

  lemma AcceptedNext(q: Queue, atRight: bool)
    requires q.list != []
    ensures var q', last := Next(q, ACCEPTED, atRight), q.list[|q.list| - 1];
            && q'.list == q.list[..|q.list| - 1] && q.tries <= q'.tries
            && (last.Message? && !Exhausted(last.item) ==> last.item.id in q'.tries)
  {
  }

  /** While everything is accepted, the entries are popped one after the other and offered if they are alive. */
  lemma {:induction false} AcceptedRun(list: seq<Entry>, n: nat, atRight: bool)
    requires n <= |list|
    ensures var q := Run(Fresh(list), seq(n, _ => ACCEPTED), atRight);
            && q.list == list[..|list| - n]
            && forall k | |list| - n <= k < |list| && list[k].Message? && !Exhausted(list[k].item) ::
                 list[k].item.id in q.tries
  {
    hide Next, Exhausted;
    if n == 0 {
      assert list[..|list|] == list;
    } else {
      AcceptedRun(list, n - 1, atRight);
      assert seq(n, _ => ACCEPTED)[..n - 1] == seq(n - 1, _ => ACCEPTED);
      AcceptedNext(Run(Fresh(list), seq(n - 1, _ => ACCEPTED), atRight), atRight);
      assert list[..|list| - n + 1][..|list| - n] == list[..|list| - n];
    }
  }

  /** For every queue: some pattern of outcomes gets a message with this ID offered if and only if one of them has
      an attempt left. */
  lemma OfferedIff(list: seq<Entry>, atRight: bool, id: string)
    ensures (exists outcomes :: Offers(list, outcomes, atRight, id)) <==> Alive(list, id)
  {
    if Alive(list, id) {
      var e :| e in list && e.Message? && e.item.id == id && !Exhausted(e.item);
      AcceptedRun(list, |list|, atRight);
      hide Run, Exhausted;
      assert Offers(list, seq(|list|, _ => ACCEPTED), atRight, id);
    } else {
      DeadHaveNoTries(list, id);
      forall outcomes ensures !Offers(list, outcomes, atRight, id) {
        DeliveriesBounded(list, outcomes, atRight, id);
      }
    }
  }

  /** So of notifications that used up their direct attempts, wherever they are in the queue and whatever happens,
      one is ever offered again if and only if MaxAttempts is not positive. */
  lemma ExhaustedNotificationOfferedIff(list: seq<Entry>, id: string, maxAttempts: int)
    requires forall e | e in list && e.Message? && e.item.id == id ::
               e.item == AmfItem(id, DirectTries(maxAttempts), maxAttempts)
    requires Message(AmfItem(id, DirectTries(maxAttempts), maxAttempts)) in list
    ensures (exists outcomes :: Offers(list, outcomes, false, id)) <==> maxAttempts <= 0
  {
    OfferedIff(list, false, id);
  }

  /** Putting a notification back: one Enqueue and, if it fails, up to five more. */
  method Reenqueue(succeeds: seq<bool>) returns (ok: bool)
    requires |succeeds| == 6
    ensures ok <==> true in succeeds
  {
    if succeeds[0] {
      return true;
    }
    for attempt := 0 to 5
      invariant forall i | 0 <= i <= attempt :: !succeeds[i]
    {
      if succeeds[1 + attempt] {
        return true;
      }
    }
    return false;
  }

  // ---- The consumers as they run ----

  class Consumer {
    var list: seq<Entry>
    ghost var delivered: multiset<string>
    ghost var exhausted: multiset<string>
    ghost var lost: multiset<string>
    ghost var tries: multiset<string>

    ghost function View(): Queue
      reads this
    {
      Queue(list, delivered, exhausted, lost, tries)
    }

    constructor (list: seq<Entry>)
      ensures View() == Fresh(list)
    {
      this.list := list;
      delivered, exhausted, lost, tries := multiset{}, multiset{}, multiset{}, multiset{};
    }

    /** BRPOP and the checks that come before a delivery. */
    method Take() returns (item: Option<Item>)
      modifies this
      ensures (View(), item) == Popped(old(View()))
    {
      if list == [] {
        return None;
      }
      var popped := list[|list| - 1];
      list := list[..|list| - 1];
      if popped.Malformed? {
        return None;
      }
      if popped.item.limit.Some? && popped.item.attempts >= popped.item.limit.value {
        exhausted := exhausted + multiset{popped.item.id};
        return None;
      }
      return Some(popped.item);
    }

    /** processDLQOne of the gateway: RPUSH with one more attempt when there is no target or it refuses. */
    method ProcessGateway(o: Outcome)
      modifies this
      ensures View() == Next(old(View()), o, true)
    {
      hide Popped;
      var taken := Take();
      if taken.None? {
        return;
      }
      var item := taken.value;
      if !o.delivery.NoTarget? {
        tries := tries + multiset{item.id};
        if o.delivery.Accepted? {
          delivered := delivered + multiset{item.id};
          return;
        }
      }
      PutBack(item, o.requeued);
    }

    /** requeueDLQ: one more attempt, pushed at the end that is popped next. */
    method PutBack(item: Item, pushed: bool)
      modifies this
      ensures View() == if pushed then old(View()).(list := old(list) + [Message(item.(attempts := item.attempts + 1))])
                        else old(View()).(lost := old(lost) + multiset{item.id})
    {
      if pushed {
        list := list + [Message(item.(attempts := item.attempts + 1))];
      } else {
        lost := lost + multiset{item.id};
      }
    }

    /** One round of the AMF loop: LPUSH with one more attempt when the AMF refuses. */
    method ProcessAmf(accepted: bool, enqueues: seq<bool>)
      requires |enqueues| == 6
      modifies this
      ensures View() == Next(old(View()), Outcome(if accepted then Accepted else Refused, true in enqueues), false)
    {
      hide Popped;
      var taken := Take();
      if taken.None? {
        return;
      }
      var item := taken.value;
      tries := tries + multiset{item.id};
      if accepted {
        delivered := delivered + multiset{item.id};
        return;
      }
      var ok := Reenqueue(enqueues);
      PutBackLeft(item, ok);
    }

    /** One more attempt, pushed at the end that is popped last. */
    method PutBackLeft(item: Item, pushed: bool)
      modifies this
      ensures View() == if pushed then old(View()).(list := [Message(item.(attempts := item.attempts + 1))] + old(list))
                        else old(View()).(lost := old(lost) + multiset{item.id})
    {
      if pushed {
        list := [Message(item.(attempts := item.attempts + 1))] + list;
      } else {
        lost := lost + multiset{item.id};
      }
    }
  }
}
