/** The sliding-window rate limiter: a sorted set of millisecond stamps per key. Each call drops the stamps that
    have left the window, counts the rest, and adds its own stamp whether or not it is admitted. The stamp is
    the set member, so calls in the same millisecond share one. */
module RateLimiter {
  import opened Base

  /** ZREMRANGEBYSCORE key 0 now-window. */
  function Trim(stamps: set<nat>, now: nat, window: int): set<nat> {
    set x | x in stamps && !(0 <= x <= now - window)
  }

  /** The stamps held after calls at `times`, when keys do not expire. */
  function Stamps(times: seq<nat>, window: int): set<nat> {
    if times == [] then {}
    else
      var now := times[|times| - 1];
      Trim(Stamps(times[..|times| - 1], window), now, window) + {now}
  }

  /** What call `i` counts, and whether it is admitted. */
  function Counted(times: seq<nat>, window: int, i: nat): set<nat>
    requires i < |times|
  {
    Trim(Stamps(times[..i], window), times[i], window)
  }

  predicate Admitted(times: seq<nat>, window: int, limit: int, i: nat)
    requires i < |times|
  {
    |Counted(times, window, i)| < limit
  }

  ghost predicate NonDecreasing(times: seq<nat>) { forall i, j | 0 <= i <= j < |times| :: times[i] <= times[j] }

  /** Under a clock that does not run backwards the set holds exactly the stamps of the last window. */
  lemma {:induction false} StampsAreLastWindow(times: seq<nat>, window: int, x: nat)
    requires NonDecreasing(times) && times != []
    ensures var last := times[|times| - 1];
            x in Stamps(times, window) <==> x in times && (x > last - window || x == last)
  {
    var before, last := times[..|times| - 1], times[|times| - 1];
    if before != [] {
      assert before[|before| - 1] == times[|times| - 2] <= last;
      assert forall i | 0 <= i < |before| :: before[i] == times[i];
      StampsAreLastWindow(before, window, x);
    }
    assert x in times <==> x in before || x == last;
  }

  /** A call counts the earlier stamps that lie less than a window back. */
  lemma CountedIs(times: seq<nat>, window: int, i: nat, x: nat)
    requires NonDecreasing(times) && i < |times|
    ensures x in Counted(times, window, i) <==> x in times[..i] && x > times[i] - window
  {
    if i > 0 {
      StampsAreLastWindow(times[..i], window, x);
      assert times[..i][i - 1] == times[i - 1];
    }
  }

  /** The different stamps on which requests were admitted between `from` and `from + window`. */
  ghost function AdmittedStamps(times: seq<nat>, window: int, limit: int, from: int): set<nat> {
    set i | 0 <= i < |times| && Admitted(times, window, limit, i) && from <= times[i] < from + window :: times[i]
  }

  lemma SubsetSize(a: set<nat>, b: set<nat>)
    requires a <= b
    ensures |a| <= |b|
  {
    assert b == a + (b - a);
  }

  lemma AdmittedPrefix(times: seq<nat>, window: int, limit: int, from: int, n: nat)
    requires n <= |times|
    ensures AdmittedStamps(times[..n], window, limit, from)
            == set i | 0 <= i < n && Admitted(times, window, limit, i) && from <= times[i] < from + window :: times[i]
  {
    assert forall i | 0 <= i < n :: times[..n][..i] == times[..i];
    assert forall i | 0 <= i < n :: Admitted(times[..n], window, limit, i) == Admitted(times, window, limit, i);
  }

  /** A call counts every stamp of its window on which an earlier request was admitted. */
  lemma LastCountsAll(times: seq<nat>, window: int, limit: int, from: int)
    requires NonDecreasing(times) && times != []
    requires from <= times[|times| - 1] < from + window
    ensures var n := |times| - 1; AdmittedStamps(times, window, limit, from) <= Counted(times, window, n) + {times[n]}
  {
    var n := |times| - 1;
    forall x | x in AdmittedStamps(times, window, limit, from) ensures x in Counted(times, window, n) + {times[n]} {
      var i :| 0 <= i < |times| && from <= times[i] < from + window && times[i] == x;
      CountedIs(times, window, n, x);
      if i < n { assert times[..n][i] == x; }
    }
  }

  lemma OthersOnly(times: seq<nat>, window: int, limit: int, from: int)
    requires times != []
    requires var n := |times| - 1; !(Admitted(times, window, limit, n) && from <= times[n] < from + window)
    ensures AdmittedStamps(times, window, limit, from) == AdmittedStamps(times[..|times| - 1], window, limit, from)
  {
    AdmittedPrefix(times, window, limit, from, |times| - 1);
    hide Admitted;
  }

  /** In every half-open window of the configured length, wherever it lies, the admitted requests fall on at
      most `limit` different millisecond stamps. */
  lemma {:induction false} AdmittedStampsBounded(times: seq<nat>, window: int, limit: int, from: int)
    requires NonDecreasing(times)
    ensures |AdmittedStamps(times, window, limit, from)| <= Max(0, limit)
  {
    hide Counted, AdmittedStamps;
    if times == [] {
      assert AdmittedStamps(times, window, limit, from) == {} by { NoStamps(window, limit, from); }
    } else {
      var n := |times| - 1;
      if Admitted(times, window, limit, n) && from <= times[n] < from + window {
        LastCountsAll(times, window, limit, from);
        SubsetSize(AdmittedStamps(times, window, limit, from), Counted(times, window, n) + {times[n]});
      } else {
        AdmittedStampsBounded(times[..n], window, limit, from);
        OthersOnly(times, window, limit, from);
      }
    }
  }

  lemma NoStamps(window: int, limit: int, from: int)
    ensures AdmittedStamps([], window, limit, from) == {}
  {
  }

  // ---- Requests rather than stamps ----

  ghost function AdmittedCalls(times: seq<nat>, window: int, limit: int, from: int): set<nat> {
    set i | 0 <= i < |times| && Admitted(times, window, limit, i) && from <= times[i] < from + window
  }

  lemma {:induction false} InjectiveImageSize(calls: set<nat>, times: seq<nat>)
    requires forall i | i in calls :: i < |times|
    requires forall i, j | i in calls && j in calls && i != j :: times[i] != times[j]
    ensures |calls| == |set i | i in calls :: times[i]|
  {
    if calls != {} {
      var k :| k in calls;
      var rest := calls - {k};
      InjectiveImageSize(rest, times);
      assert (set i | i in calls :: times[i]) == (set i | i in rest :: times[i]) + {times[k]};
    }
  }

  /** When no two calls share a millisecond, at most `limit` requests are admitted in any window. */
  lemma AdmittedCallsBounded(times: seq<nat>, window: int, limit: int, from: int)
    requires forall i, j | 0 <= i < j < |times| :: times[i] < times[j]
    ensures |AdmittedCalls(times, window, limit, from)| <= Max(0, limit)
  {
    var calls := AdmittedCalls(times, window, limit, from);
    InjectiveImageSize(calls, times);
    assert (set i | i in calls :: times[i]) == AdmittedStamps(times, window, limit, from);
    AdmittedStampsBounded(times, window, limit, from);
  }

  /** With a limit of one or less an admitted request comes a whole window after every earlier request, so the
      bound holds for any calls. */
  lemma LimitOneSpacesRequests(times: seq<nat>, window: int, limit: int, i: nat, j: nat)
    requires NonDecreasing(times) && limit <= 1 && i < j < |times| && Admitted(times, window, limit, j)
    ensures times[j] - times[i] >= window
  {
    CountedIs(times, window, j, times[i]);
    assert times[..j][i] == times[i];
    assert Counted(times, window, j) == {};
  }

  /** From a limit of two on it fails: any number of requests in one millisecond are all admitted. */
  lemma SameMillisecondAllAdmitted(times: seq<nat>, now: nat, window: int, limit: int, i: nat)
    requires limit >= 2 && i < |times| && forall k | 0 <= k < |times| :: times[k] == now
    ensures Admitted(times, window, limit, i)
  {
    forall x | x in Counted(times, window, i) ensures x in {now} {
      CountedIs(times, window, i, x);
    }
    hide Counted;
    SubsetSize(Counted(times, window, i), {now});
  }

  ghost predicate CallsBounded(window: int, limit: int) {
    forall times, from | NonDecreasing(times) :: |AdmittedCalls(times, window, limit, from)| <= Max(0, limit)
  }

  lemma LimitOneBound(times: seq<nat>, window: int, limit: int, from: int)
    requires NonDecreasing(times) && limit <= 1
    ensures |AdmittedCalls(times, window, limit, from)| <= Max(0, limit)
  {
    var calls := AdmittedCalls(times, window, limit, from);
    if calls != {} {
      var k :| k in calls;
      forall i | i in calls ensures i in {k} {
        if i < k { LimitOneSpacesRequests(times, window, limit, i, k); }
        if k < i { LimitOneSpacesRequests(times, window, limit, k, i); }
      }
      SubsetSize(calls, {k});
    }
  }

  /** The exact settings for which no more than `limit` requests are ever admitted in a window: a limit of at most
      one, or a window without length. */
  lemma CallsBoundedIff(window: int, limit: int)
    ensures CallsBounded(window, limit) <==> limit <= 1 || window <= 0
  {
    if limit <= 1 {
      forall times, from | NonDecreasing(times) ensures |AdmittedCalls(times, window, limit, from)| <= Max(0, limit) {
        LimitOneBound(times, window, limit, from);
      }
    } else if window <= 0 {
      forall times, from | NonDecreasing(times) ensures |AdmittedCalls(times, window, limit, from)| <= Max(0, limit) {
        assert AdmittedCalls(times, window, limit, from) == {};
      }
    } else {
      TooManyAdmitted(window, limit);
    }
  }

  lemma TooManyAdmitted(window: int, limit: int)
    requires limit >= 2 && window >= 1
    ensures !CallsBounded(window, limit)
  {
    var times := seq(limit + 1, _ => 0);
    BurstAdmitted(times, window, limit);
    hide AdmittedCalls;
    assert NonDecreasing(times);
  }

  lemma BurstAdmitted(times: seq<nat>, window: int, limit: int)
    requires limit >= 2 && window >= 1 && forall k | 0 <= k < |times| :: times[k] == 0
    ensures |AdmittedCalls(times, window, limit, 0)| == |times|
  {
    forall i | 0 <= i < |times| ensures Admitted(times, window, limit, i) {
      SameMillisecondAllAdmitted(times, 0, window, limit, i);
    }
    hide Admitted;
    AllAdmitted(times, window, limit);
    RangeSize(|times|);
    hide AdmittedCalls, Range;
  }

  lemma AllAdmitted(times: seq<nat>, window: int, limit: int)
    requires forall i | 0 <= i < |times| :: Admitted(times, window, limit, i) && times[i] < window
    ensures AdmittedCalls(times, window, limit, 0) == Range(|times|)
  {
    hide Admitted;
  }

  function Range(n: nat): (s: set<nat>)
    ensures forall i :: i in s <==> 0 <= i < n
  {
    if n == 0 then {} else Range(n - 1) + {n - 1}
  }

  lemma {:induction false} RangeSize(n: nat)
    ensures |Range(n)| == n
  {
    if n > 0 { RangeSize(n - 1); }
  }

  // ---- Expiry of the key ----

  /** A sorted set with the time at which Redis drops it. */
  datatype Entry = Entry(stamps: set<nat>, expiresAt: int)

  function AllowSpec(e: Option<Entry>, now: nat, window: int, ttl: int, limit: int): (Entry, bool) {
    var live := if e.Some? && now < e.value.expiresAt then e.value.stamps else {};
    var counted := Trim(live, now, window);
    (Entry(counted + {now}, now + ttl), |counted| < limit)
  }

  function Stored(times: seq<nat>, window: int, ttl: int, limit: int): Option<Entry> {
    if times == [] then None
    else Some(AllowSpec(Stored(times[..|times| - 1], window, ttl, limit), times[|times| - 1], window, ttl, limit).0)
  }

  /** An expiry no shorter than the window, such as the window plus one second, never changes a decision or
      what the set holds. */
  lemma {:induction false} ExpiryChangesNothing(times: seq<nat>, window: int, ttl: int, limit: int)
    requires NonDecreasing(times) && ttl >= window && times != []
    ensures var n := |times| - 1;
            var r := AllowSpec(Stored(times[..n], window, ttl, limit), times[n], window, ttl, limit);
            r.1 == Admitted(times, window, limit, n) && r.0 == Entry(Stamps(times, window), times[n] + ttl)
  {
    var n := |times| - 1;
    var before := times[..n];
    if n > 0 {
      ExpiryChangesNothing(before, window, ttl, limit);
      assert before[n - 1] == times[n - 1];
      if times[n] >= times[n - 1] + ttl {
        assert forall i | 0 <= i < n :: before[i] == times[i] <= times[n - 1];
        forall x: nat ensures x !in Counted(times, window, n) {
          CountedIs(times, window, n, x);
        }
        assert Counted(times, window, n) == {};
      }
    }
  }

  // ---- The limiter as it runs ----

  class Limiter {
    const window: int
    const limit: int
    var entries: map<string, Entry>

    /** The window is in milliseconds. */
    constructor (window: int, limit: int)
      ensures this.window == window && this.limit == limit && entries == map[]
    {
      this.window, this.limit, entries := window, limit, map[];
    }

    /** One pipeline: trim, count, add, set the expiry. Other keys are untouched. */
    method Allow(key: string, now: nat) returns (allowed: bool)
      modifies this
      ensures var r := AllowSpec(if key in old(entries) then Some(old(entries)[key]) else None,
                                 now, window, window + 1000, limit);
              entries == old(entries)[key := r.0] && allowed == r.1
    {
      var stamps := {};
      if key in entries && now < entries[key].expiresAt {
        stamps := entries[key].stamps;
      }
      var windowStart := now - window;
      stamps := set x | x in stamps && !(0 <= x <= windowStart);
      var count := |stamps|;
      stamps := stamps + {now};
      entries := entries[key := Entry(stamps, now + window + 1000)];
      return count < limit;
    }

    method Reset(key: string)
      modifies this
      ensures entries == old(entries) - {key}
    {
      entries := entries - {key};
    }
  }
}
