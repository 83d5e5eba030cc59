/** The rate limiter's commands one by one. A call sends trim, count and add to Redis as a pipeline, not as a
    transaction, so the commands of calls on the same key may interleave. Keys do not expire here. */
module RateRaces {
  import opened Base
  import opened RateLimiter

  /** How far a call has got. With what it counted come two ledgers of the moment of counting: the calls that had
      added their stamp, and those that had trimmed. */
  datatype Call =
    | Ready
    | Trimmed
    | Counting(stamps: set<nat>, seen: set<nat>, trims: set<nat>)
    | Done(stamps: set<nat>, seen: set<nat>, trims: set<nat>)
  {
    predicate HasCounted() { Counting? || Done? }
  }

  datatype Race = Race(stamps: set<nat>, calls: seq<Call>)

  function Start(n: nat): Race { Race({}, seq(n, _ => Ready)) }

  function Adders(r: Race): set<nat> { set i | 0 <= i < |r.calls| && r.calls[i].Done? }

  function Trimmers(r: Race): set<nat> { set i | 0 <= i < |r.calls| && !r.calls[i].Ready? }

  /** The next command of call `i`, whose clock reading is `times[i]`. */
  function After(times: seq<nat>, window: int, r: Race, i: nat): Race
    requires |r.calls| == |times|
  {
    if i >= |times| then r
    else
      match r.calls[i]
      case Ready => Race(Trim(r.stamps, times[i], window), r.calls[i := Trimmed])
      case Trimmed => r.(calls := r.calls[i := Counting(r.stamps, Adders(r), Trimmers(r))])
      case Counting(c, s, t) => Race(r.stamps + {times[i]}, r.calls[i := Done(c, s, t)])
      case Done(_, _, _) => r
  }

  /** A schedule names the call whose command comes next. */
  function Runs(times: seq<nat>, window: int, schedule: seq<nat>): (r: Race)
    ensures |r.calls| == |times|
  {
    if schedule == [] then Start(|times|)
    else After(times, window, Runs(times, window, schedule[..|schedule| - 1]), schedule[|schedule| - 1])
  }

  // ---- What every schedule keeps ----

  /** A stamp is in the set, or a trim of the named calls has dropped it. */
  ghost predicate KeptOrDropped(times: seq<nat>, window: int, stamps: set<nat>, trims: set<nat>, i: nat)
    requires i < |times|
  {
    times[i] in stamps || exists k | k in trims && k < |times| :: times[i] <= times[k] - window
  }

  /** The stamps are those of the calls in `adders`, but for the ones that the calls in `trims` have dropped. */
  ghost predicate SetOk(times: seq<nat>, window: int, stamps: set<nat>, adders: set<nat>, trims: set<nat>) {
    && (forall i | i in adders :: i < |times| && KeptOrDropped(times, window, stamps, trims, i))
    && (forall x | x in stamps :: exists i | i in adders && i < |times| :: times[i] == x)
    && (forall k | k in trims :: k < |times|)
  }

  /** What a call that has counted knows, and who it has seen: calls that had counted before, with all they saw. */
  ghost predicate CallOk(times: seq<nat>, window: int, r: Race, j: nat)
    requires j < |r.calls| && r.calls[j].HasCounted()
  {
    var c := r.calls[j];
    && SetOk(times, window, c.stamps, c.seen, c.trims) && j !in c.seen && c.seen <= Adders(r)
    && forall i | i in c.seen :: i < |r.calls| && r.calls[i].Done? && r.calls[i].seen <= c.seen
  }

  ghost predicate Inv(times: seq<nat>, window: int, r: Race) {
    && |r.calls| == |times|
    && SetOk(times, window, r.stamps, Adders(r), Trimmers(r))
    && (forall j | 0 <= j < |r.calls| && r.calls[j].HasCounted() :: CallOk(times, window, r, j))
    && (forall i, j | 0 <= i < |r.calls| && 0 <= j < |r.calls| && r.calls[i].HasCounted() && r.calls[j].HasCounted() ::
          r.calls[i].seen <= r.calls[j].seen || r.calls[j].seen <= r.calls[i].seen)
  }

  lemma SetAfterTrim(times: seq<nat>, window: int, stamps: set<nat>, adders: set<nat>, trims: set<nat>, i: nat)
    requires SetOk(times, window, stamps, adders, trims) && i < |times|
    ensures SetOk(times, window, Trim(stamps, times[i], window), adders, trims + {i})
  {
    var stamps', trims' := Trim(stamps, times[i], window), trims + {i};
    forall a | a in adders ensures a < |times| && KeptOrDropped(times, window, stamps', trims', a) {
      assert KeptOrDropped(times, window, stamps, trims, a);
      if times[a] in stamps && times[a] !in stamps' {
        assert i in trims' && times[a] <= times[i] - window;
      } else if times[a] !in stamps {
        var k :| k in trims && k < |times| && times[a] <= times[k] - window;
        assert k in trims';
      }
    }
  }

  lemma SetAfterAdd(times: seq<nat>, window: int, stamps: set<nat>, adders: set<nat>, trims: set<nat>, i: nat)
    requires SetOk(times, window, stamps, adders, trims) && i < |times|
    ensures SetOk(times, window, stamps + {times[i]}, adders + {i}, trims)
  {
    var stamps' := stamps + {times[i]};
    forall a | a in adders + {i} ensures a < |times| && KeptOrDropped(times, window, stamps', trims, a) {
      if a != i { assert KeptOrDropped(times, window, stamps, trims, a); }
    }
    forall x | x in stamps' ensures exists a | a in adders + {i} && a < |times| :: times[a] == x {
      if x in stamps {
        var a :| a in adders && a < |times| && times[a] == x;
        assert a in adders + {i};
      }
    }
  }

  lemma LedgersAfter(times: seq<nat>, window: int, r: Race, i: nat)
    requires |r.calls| == |times| && i < |times|
    ensures var r' := After(times, window, r, i);
            && Adders(r') == (if r.calls[i].Counting? then Adders(r) + {i} else Adders(r))
            && Trimmers(r') == (if r.calls[i].Ready? then Trimmers(r) + {i} else Trimmers(r))
  {
    hide Trim;
  }

  lemma InvStep(times: seq<nat>, window: int, r: Race, i: nat)
    requires Inv(times, window, r)
    ensures Inv(times, window, After(times, window, r, i))
  {
    if i < |times| && !r.calls[i].Done? {
      var r' := After(times, window, r, i);
      LedgersAfter(times, window, r, i);
      match r.calls[i] {
        case Ready => SetAfterTrim(times, window, r.stamps, Adders(r), Trimmers(r), i);
        case Counting(_, _, _) => SetAfterAdd(times, window, r.stamps, Adders(r), Trimmers(r), i);
        case _ =>
      }
      forall j | 0 <= j < |r'.calls| && r'.calls[j].HasCounted() ensures CallOk(times, window, r', j) {
        CallStep(times, window, r, i, j);
      }
      SeenStep(times, window, r, i);
      hide SetOk, CallOk, After, Adders, Trimmers;
    }
  }

  lemma CallStep(times: seq<nat>, window: int, r: Race, i: nat, j: nat)
    requires Inv(times, window, r) && i < |times| && !r.calls[i].Done? && j < |r.calls|
    requires After(times, window, r, i).calls[j].HasCounted()
    ensures CallOk(times, window, After(times, window, r, i), j)
  {
    LedgersAfter(times, window, r, i);
    if r.calls[j].HasCounted() { assert CallOk(times, window, r, j); }
    if r.calls[i].Trimmed? && j == i {
      forall k | k in Adders(r) ensures r.calls[k].seen <= Adders(r) { assert CallOk(times, window, r, k); }
    }
    hide SetOk, Trim;
  }

  lemma SeenStep(times: seq<nat>, window: int, r: Race, i: nat)
    requires Inv(times, window, r) && i < |times| && !r.calls[i].Done?
    ensures var r' := After(times, window, r, i);
            forall a, b | 0 <= a < |r'.calls| && 0 <= b < |r'.calls| && r'.calls[a].HasCounted() && r'.calls[b].HasCounted() ::
              r'.calls[a].seen <= r'.calls[b].seen || r'.calls[b].seen <= r'.calls[a].seen
  {
    if r.calls[i].Trimmed? {
      forall k | 0 <= k < |r.calls| && r.calls[k].HasCounted() ensures r.calls[k].seen <= Adders(r) {
        assert CallOk(times, window, r, k);
      }
    }
    hide SetOk, CallOk, Trim, Adders, Trimmers;
  }

  lemma {:induction false} InvRun(times: seq<nat>, window: int, schedule: seq<nat>)
    ensures Inv(times, window, Runs(times, window, schedule))
  {
    if schedule == [] {
      assert Adders(Start(|times|)) == {} && Trimmers(Start(|times|)) == {};
    } else {
      InvRun(times, window, schedule[..|schedule| - 1]);
      InvStep(times, window, Runs(times, window, schedule[..|schedule| - 1]), schedule[|schedule| - 1]);
      hide Inv, After;
    }
  }

  // ---- One call after the other ----

  /** The calls run to their end in order. */
  function Serial(n: nat): seq<nat> { if n == 0 then [] else Serial(n - 1) + [n - 1] + [n - 1] + [n - 1] }

  lemma RunsAppend(times: seq<nat>, window: int, schedule: seq<nat>, i: nat)
    ensures Runs(times, window, schedule + [i]) == After(times, window, Runs(times, window, schedule), i)
  {
    assert (schedule + [i])[..|schedule|] == schedule;
  }

  /** The three commands of a call in a row. */
  lemma WholeCall(times: seq<nat>, window: int, r: Race, i: nat)
    requires |r.calls| == |times| && i < |times| && r.calls[i].Ready?
    ensures var r' := After(times, window, After(times, window, After(times, window, r, i), i), i);
            var counted := Trim(r.stamps, times[i], window);
            r' == Race(counted + {times[i]}, r.calls[i := Done(counted, Adders(r), Trimmers(r) + {i})])
  {
    var r1 := After(times, window, r, i);
    LedgersAfter(times, window, r, i);
    hide Trim, Adders, Trimmers;
    var c := Counting(r1.stamps, Adders(r), Trimmers(r) + {i});
    assert After(times, window, r1, i) == r1.(calls := r1.calls[i := c]);
    assert r1.calls[i := c][i := Done(c.stamps, c.seen, c.trims)] == r.calls[i := Done(c.stamps, c.seen, c.trims)];
  }

  function SerialCall(times: seq<nat>, window: int, i: nat): Call
    requires i < |times|
  {
    Done(Counted(times, window, i), Range(i), Range(i + 1))
  }

  /** The first `n` calls are over: they counted what the limiter of whole calls counts, each has seen exactly the
      ones before it, and only those and itself had trimmed. */
  ghost predicate SerialOk(times: seq<nat>, window: int, r: Race, n: nat) {
    && |r.calls| == |times|
    && n <= |times| && r.stamps == Stamps(times[..n], window)
    && (forall i | 0 <= i < n :: r.calls[i] == SerialCall(times, window, i))
    && (forall i | n <= i < |times| :: r.calls[i].Ready?)
  }

  lemma SerialLedgers(r: Race, n: nat)
    requires n <= |r.calls|
    requires (forall i | 0 <= i < n :: r.calls[i].Done?) && (forall i | n <= i < |r.calls| :: r.calls[i].Ready?)
    ensures Adders(r) == Range(n) && Trimmers(r) == Range(n) && Range(n) + {n} == Range(n + 1)
  {
  }

  lemma SerialStep(times: seq<nat>, window: int, r: Race, k: nat)
    requires SerialOk(times, window, r, k) && k < |times|
    ensures var counted := Trim(r.stamps, times[k], window);
            SerialOk(times, window, Race(counted + {times[k]}, r.calls[k := Done(counted, Adders(r), Trimmers(r) + {k})]), k + 1)
  {
    SerialLedgers(r, k);
    assert times[..k + 1][..k] == times[..k];
    hide Range, Adders, Trimmers;
  }

  lemma {:induction false} SerialRun(times: seq<nat>, window: int, n: nat)
    requires n <= |times|
    ensures SerialOk(times, window, Runs(times, window, Serial(n)), n)
  {
    if n > 0 {
      var k := n - 1;
      SerialRun(times, window, k);
      var r := Runs(times, window, Serial(k));
      RunsAppend(times, window, Serial(k), k);
      RunsAppend(times, window, Serial(k) + [k], k);
      RunsAppend(times, window, Serial(k) + [k] + [k], k);
      WholeCall(times, window, r, k);
      SerialStep(times, window, r, k);
      hide Runs, After, Adders, Trimmers, Trim, Range, Stamps, Counted;
    } else {
      assert times[..0] == [];
    }
  }

  /** So under a clock that does not run backwards the schedule of whole calls decides as the limiter does, has no
      overlap and drops nothing too early. */
  lemma SerialIsSequential(times: seq<nat>, window: int, limit: int)
    requires NonDecreasing(times)
    ensures var r := Runs(times, window, Serial(|times|));
            && (forall i | 0 <= i < |times| :: Admits(r, limit, i) <==> Admitted(times, window, limit, i))
            && OverlapFree(r) && TrimsInOrder(times, r)
  {
    SerialRun(times, window, |times|);
    SerialFacts(times, window, limit, Runs(times, window, Serial(|times|)));
    hide Runs, Serial, OverlapFree, TrimsInOrder, Admits, Admitted;
  }

  lemma SerialFacts(times: seq<nat>, window: int, limit: int, r: Race)
    requires NonDecreasing(times) && SerialOk(times, window, r, |times|)
    ensures forall i | 0 <= i < |times| :: Admits(r, limit, i) <==> Admitted(times, window, limit, i)
    ensures OverlapFree(r) && TrimsInOrder(times, r)
  {
    hide Counted, Stamps;
    forall i, j | 0 <= i < |times| && 0 <= j < |times| ensures !Overlap(r, i, j) {
      assert i < j ==> i in r.calls[j].seen;
      assert j < i ==> j in r.calls[i].seen;
    }
  }

  // ---- The bound ----

  ghost predicate Admits(r: Race, limit: int, i: nat)
    requires i < |r.calls|
  {
    r.calls[i].HasCounted() && |r.calls[i].stamps| < limit
  }

  ghost predicate InWindow(times: seq<nat>, window: int, from: int, i: nat)
    requires i < |times|
  {
    from <= times[i] < from + window
  }

  /** The calls admitted between `from` and `from + window`, and their different stamps. */
  ghost function AdmittedIn(times: seq<nat>, window: int, r: Race, limit: int, from: int): set<nat>
    requires |r.calls| == |times|
  {
    set i | 0 <= i < |times| && Admits(r, limit, i) && InWindow(times, window, from, i)
  }

  ghost function StampsOf(times: seq<nat>, calls: set<nat>): set<nat> {
    set i | i in calls && i < |times| :: times[i]
  }

  /** Two calls overlap: each counts before the other adds. */
  ghost predicate Overlap(r: Race, i: nat, j: nat)
    requires i < |r.calls| && j < |r.calls|
  {
    && i != j && r.calls[i].HasCounted() && r.calls[j].HasCounted()
    && i !in r.calls[j].seen && j !in r.calls[i].seen
  }

  ghost predicate OverlapFree(r: Race) {
    forall i, j | 0 <= i < |r.calls| && 0 <= j < |r.calls| :: !Overlap(r, i, j)
  }

  /** No trim has dropped a stamp that a call counting later still had in its window. */
  ghost predicate NothingDropped(times: seq<nat>, window: int, r: Race)
    requires |r.calls| == |times|
  {
    forall i, j, k | 0 <= i < |times| && 0 <= j < |times| && 0 <= k < |times| && r.calls[j].HasCounted()
                     && k in r.calls[j].trims && times[j] - window < times[i] < times[j] + window ::
      times[k] - window < times[i]
  }

  /** A call that has seen another counts its stamp, if that lies in its window. */
  lemma SeenIsCounted(times: seq<nat>, window: int, r: Race, i: nat, j: nat)
    requires Inv(times, window, r) && NothingDropped(times, window, r)
    requires j < |times| && r.calls[j].HasCounted() && i in r.calls[j].seen && i < |times|
    requires times[j] - window < times[i] < times[j] + window
    ensures times[i] in r.calls[j].stamps
  {
    assert CallOk(times, window, r, j);
    assert KeptOrDropped(times, window, r.calls[j].stamps, r.calls[j].trims, i);
  }

  /** Of calls that do not overlap, one has seen all the others. */
  lemma {:induction false} LastCounter(times: seq<nat>, window: int, r: Race, calls: set<nat>) returns (j: nat)
    requires Inv(times, window, r) && OverlapFree(r) && calls != {}
    requires forall i | i in calls :: i < |r.calls| && r.calls[i].HasCounted()
    ensures j in calls && forall i | i in calls && i != j :: i in r.calls[j].seen
    decreases calls
  {
    var k :| k in calls;
    if calls == {k} {
      j := k;
    } else {
      var m := LastCounter(times, window, r, calls - {k});
      assert !Overlap(r, k, m);
      if k in r.calls[m].seen {
        j := m;
      } else {
        j := k;
        assert CallOk(times, window, r, k);
      }
      hide Inv, OverlapFree, CallOk;
    }
  }

  /** For every schedule in which no two calls overlap and no stamp is dropped too early, the admitted requests of
      every window fall on at most `limit` milliseconds, whatever the order of the clock readings. */
  lemma OverlapFreeBound(times: seq<nat>, window: int, schedule: seq<nat>, limit: int, from: int)
    requires var r := Runs(times, window, schedule); OverlapFree(r) && NothingDropped(times, window, r)
    ensures var r := Runs(times, window, schedule);
            |StampsOf(times, AdmittedIn(times, window, r, limit, from))| <= Max(0, limit)
  {
    var r := Runs(times, window, schedule);
    InvRun(times, window, schedule);
    hide Runs;
    var calls := AdmittedIn(times, window, r, limit, from);
    if calls == {} {
      assert StampsOf(times, calls) == {};
    } else {
      var j := LastCounter(times, window, r, calls);
      forall x | x in StampsOf(times, calls) ensures x in r.calls[j].stamps + {times[j]} {
        var i :| i in calls && i < |times| && times[i] == x;
        if i != j { SeenIsCounted(times, window, r, i, j); }
      }
      hide Inv, OverlapFree, NothingDropped;
      SubsetSize(StampsOf(times, calls), r.calls[j].stamps + {times[j]});
    }
  }

  /** Nothing is dropped too early when no call trims before one with an earlier clock reading has counted. */
  ghost predicate TrimsInOrder(times: seq<nat>, r: Race)
    requires |r.calls| == |times|
  {
    forall j, k | 0 <= j < |times| && 0 <= k < |times| && r.calls[j].HasCounted() && k in r.calls[j].trims ::
      times[k] <= times[j]
  }

  lemma InOrderBound(times: seq<nat>, window: int, schedule: seq<nat>, limit: int, from: int)
    requires var r := Runs(times, window, schedule); OverlapFree(r) && TrimsInOrder(times, r)
    ensures var r := Runs(times, window, schedule);
            |StampsOf(times, AdmittedIn(times, window, r, limit, from))| <= Max(0, limit)
  {
    hide Runs, OverlapFree;
    OverlapFreeBound(times, window, schedule, limit, from);
  }

  // ---- Exactly when ----

  ghost predicate LimitHolds(times: seq<nat>, window: int, r: Race, limit: int, from: int)
    requires |r.calls| == |times|
  {
    |StampsOf(times, AdmittedIn(times, window, r, limit, from))| <= Max(0, limit)
  }

  lemma {:induction false} DistinctStamps(times: seq<nat>, calls: set<nat>)
    requires forall i | i in calls :: i < |times|
    requires forall i, j | i in calls && j in calls && i != j :: times[i] != times[j]
    ensures |StampsOf(times, calls)| == |calls|
  {
    InjectiveImageSize(calls, times);
    assert StampsOf(times, calls) == set i | i in calls :: times[i];
  }

  /** Inside one window a call counts exactly the stamps of the calls it has seen. */
  lemma CountsSeen(times: seq<nat>, window: int, r: Race, from: int, j: nat)
    requires Inv(times, window, r) && (forall i | 0 <= i < |times| :: InWindow(times, window, from, i))
    requires j < |times| && r.calls[j].HasCounted()
    ensures r.calls[j].stamps == StampsOf(times, r.calls[j].seen)
  {
    assert CallOk(times, window, r, j);
    var c := r.calls[j];
    forall i | i in c.seen ensures times[i] in c.stamps {
      assert KeptOrDropped(times, window, c.stamps, c.trims, i);
      assert InWindow(times, window, from, i);
      forall k | k in c.trims ensures times[i] > times[k] - window { assert InWindow(times, window, from, k); }
    }
  }

  /** Two calls that overlap, the second having seen at least what the first has: with a limit of one more than the
      second has counted they are both admitted, and so is everybody either has seen. */
  lemma OverlapAdmits(times: seq<nat>, window: int, r: Race, from: int, i: nat, j: nat)
    requires Inv(times, window, r) && (forall k | 0 <= k < |times| :: InWindow(times, window, from, k))
    requires forall a, b | 0 <= a < b < |times| :: times[a] != times[b]
    requires i < |r.calls| && j < |r.calls| && Overlap(r, i, j) && r.calls[i].seen <= r.calls[j].seen
    ensures !LimitHolds(times, window, r, |r.calls[j].stamps| + 1, from)
  {
    var seen, limit := r.calls[j].seen, |r.calls[j].stamps| + 1;
    var many := seen + {i} + {j};
    assert CallOk(times, window, r, j);
    forall k | k in many ensures k in AdmittedIn(times, window, r, limit, from) {
      assert k < |times| && r.calls[k].HasCounted() && r.calls[k].seen <= seen;
      CountsSeen(times, window, r, from, k);
      CountsSeen(times, window, r, from, j);
      SubsetSize(StampsOf(times, r.calls[k].seen), StampsOf(times, seen));
      assert InWindow(times, window, from, k);
    }
    hide Inv, CallOk;
    CountsSeenSize(times, window, r, from, j);
    DistinctStamps(times, many);
    SubsetSize(StampsOf(times, many), StampsOf(times, AdmittedIn(times, window, r, limit, from)));
  }

  lemma CountsSeenSize(times: seq<nat>, window: int, r: Race, from: int, j: nat)
    requires Inv(times, window, r) && (forall k | 0 <= k < |times| :: InWindow(times, window, from, k))
    requires forall a, b | 0 <= a < b < |times| :: times[a] != times[b]
    requires j < |times| && r.calls[j].HasCounted()
    ensures |r.calls[j].stamps| == |r.calls[j].seen|
  {
    CountsSeen(times, window, r, from, j);
    assert CallOk(times, window, r, j);
    DistinctStamps(times, r.calls[j].seen);
  }

  /** For every schedule of calls with different stamps inside one window: the limit holds, whatever it is, if and
      only if no two calls overlap. */
  lemma LimitHoldsIff(times: seq<nat>, window: int, schedule: seq<nat>, from: int)
    requires forall a, b | 0 <= a < b < |times| :: times[a] != times[b]
    requires forall k | 0 <= k < |times| :: InWindow(times, window, from, k)
    ensures var r := Runs(times, window, schedule);
            (forall limit :: LimitHolds(times, window, r, limit, from)) <==> OverlapFree(r)
  {
    var r := Runs(times, window, schedule);
    InvRun(times, window, schedule);
    if OverlapFree(r) {
      InsideNothingDropped(times, window, r, from);
      hide NothingDropped, OverlapFree, Runs;
      forall limit ensures LimitHolds(times, window, r, limit, from) {
        OverlapFreeBound(times, window, schedule, limit, from);
      }
    } else {
      var i, j :| 0 <= i < |r.calls| && 0 <= j < |r.calls| && Overlap(r, i, j);
      if r.calls[i].seen <= r.calls[j].seen {
        OverlapAdmits(times, window, r, from, i, j);
      } else {
        OverlapAdmits(times, window, r, from, j, i);
      }
    }
  }

  lemma InsideNothingDropped(times: seq<nat>, window: int, r: Race, from: int)
    requires |r.calls| == |times| && forall k | 0 <= k < |times| :: InWindow(times, window, from, k)
    ensures NothingDropped(times, window, r)
  {
    forall i, k | 0 <= i < |times| && 0 <= k < |times| ensures times[k] - window < times[i] {
      assert InWindow(times, window, from, i) && InWindow(times, window, from, k);
    }
  }

  /** Such a run: two calls in different milliseconds that count before either adds are both admitted, although the
      limit is one. */
  lemma BothCountFirst(t: nat, window: int)
    requires window >= 2
    ensures var times := [t, t + 1];
            var r := Runs(times, window, [0, 0, 1, 1]);
            Overlap(r, 0, 1) && Admits(r, 1, 0) && Admits(r, 1, 1) && !LimitHolds(times, window, r, 1, t)
  {
    var times := [t, t + 1];
    var c := Counting({}, {}, {0});
    var d := Counting({}, {}, {0, 1});
    var r0, r1, r2, r3, r4 := Race({}, [Ready, Ready]), Race({}, [Trimmed, Ready]), Race({}, [c, Ready]),
                              Race({}, [c, Trimmed]), Race({}, [c, d]);
    assert Start(2) == r0;
    assert Trim({}, t, window) == {} && Trim({}, t + 1, window) == {};
    assert After(times, window, r0, 0) == r1;
    assert Adders(r1) == {} && Trimmers(r1) == {0} && After(times, window, r1, 0) == r2;
    assert After(times, window, r2, 1) == r3;
    assert Adders(r3) == {} && Trimmers(r3) == {0, 1} && After(times, window, r3, 1) == r4;
    hide After, Start;
    assert [0][..0] == [] && [0, 0][..1] == [0] && [0, 0, 1][..2] == [0, 0] && [0, 0, 1, 1][..3] == [0, 0, 1];
    assert Runs(times, window, []) == r0;
    assert Runs(times, window, [0]) == r1;
    assert Runs(times, window, [0, 0]) == r2;
    assert Runs(times, window, [0, 0, 1]) == r3;
    assert Runs(times, window, [0, 0, 1, 1]) == r4;
    BothAdmitted(t, window, r4);
  }

  lemma BothAdmitted(t: nat, window: int, r: Race)
    requires window >= 2 && |r.calls| == 2 && Admits(r, 1, 0) && Admits(r, 1, 1)
    ensures !LimitHolds([t, t + 1], window, r, 1, t)
  {
    var times := [t, t + 1];
    assert InWindow(times, window, t, 0) && InWindow(times, window, t, 1);
    assert AdmittedIn(times, window, r, 1, t) == {0, 1};
    assert {t, t + 1} <= StampsOf(times, {0, 1});
    SubsetSize({t, t + 1}, StampsOf(times, {0, 1}));
  }
}
