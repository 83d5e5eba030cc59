/** EAP sessions and the in-memory session store with its time-to-live. The clock is a parameter of
    every operation that reads it. */
module EapSession {
  import opened Base

  datatype SessionState = Idle | Init | EapExchange | Completing | Done | Failed | TimedOut
  {
    predicate IsTerminal() { this == Done || this == Failed || this == TimedOut }
  }

  const DEFAULT_MAX_ROUNDS := 20
  const DEFAULT_ROUND_TIMEOUT := 30_000_000_000
  const DEFAULT_SESSION_TTL := 600_000_000_000

  /** The value of a session at one moment. An unset nonce is the empty byte string. */
  datatype SessionView = SessionView(state: SessionState, eapMethod: byte, rounds: int, maxRounds: int, expectedID: byte,
                       lastNonce: bytes, cached: Option<bytes>, createdAt: int, lastActivity: int, timeout: int)
  {
    predicate IsExpired(ttl: int, now: int) { now - createdAt > ttl }

    predicate IsTimedOut(now: int) { now - lastActivity > timeout }
  }

  function NewView(maxRounds: int, timeout: int, now: int): SessionView {
    SessionView(Init, 0, 0, maxRounds, 0, [], None, now, now, timeout)
  }

  class Session {
    const authCtxID: string
    var state: SessionState
    var eapMethod: byte
    var rounds: int
    var maxRounds: int
    var expectedID: byte
    var lastNonce: bytes
    var cached: Option<bytes>
    var createdAt: int
    var lastActivity: int
    var timeout: int

    ghost function View(): SessionView
      reads this
    {
      SessionView(state, eapMethod, rounds, maxRounds, expectedID, lastNonce, cached, createdAt, lastActivity, timeout)
    }

    constructor (authCtxID: string, maxRounds: int, timeout: int, now: int)
      ensures View() == NewView(maxRounds, timeout, now) && this.authCtxID == authCtxID
    {
      this.authCtxID := authCtxID;
      state, eapMethod, rounds, expectedID, lastNonce, cached := Init, 0, 0, 0, [], None;
      createdAt, lastActivity := now, now;
      this.maxRounds, this.timeout := maxRounds, timeout;
    }

    method Mark(terminal: SessionState, now: int)
      modifies this
      ensures View() == old(View()).(state := terminal, lastActivity := now)
    {
      state, lastActivity := terminal, now;
    }
  }

  /** Constant-time comparison: the or of the byte-wise exclusive ors is zero exactly on equal strings. */
  method BytesEqual(a: bytes, b: bytes) returns (equal: bool)
    ensures equal <==> a == b
  {
    if |a| != |b| {
      return false;
    }
    var diff: nat := 0;
    for i := 0 to |a|
      invariant diff == 0 <==> a[..i] == b[..i]
    {
      assert a[..i + 1] == a[..i] + [a[i]] && b[..i + 1] == b[..i] + [b[i]];
      diff := Or(diff, Xor(a[i], b[i]));
    }
    assert a[..|a|] == a && b[..|b|] == b;
    return diff == 0;
  }

  /** Bitwise exclusive or... */
  function Xor(x: nat, y: nat): (r: nat)
    ensures r == 0 <==> x == y
    decreases x + y
  {
    if x == 0 && y == 0 then 0 else 2 * Xor(x / 2, y / 2) + if x % 2 == y % 2 then 0 else 1
  }

  /** ...and bitwise or. */
  function Or(x: nat, y: nat): (r: nat)
    ensures r == 0 <==> x == 0 && y == 0
    decreases x + y
  {
    if x == 0 && y == 0 then 0 else 2 * Or(x / 2, y / 2) + if x % 2 == 0 && y % 2 == 0 then 0 else 1
  }

  class SessionManager {
    var sessions: map<string, Session>
    const ttl: int

    ghost predicate Valid()
      reads this
    {
      forall id | id in sessions :: sessions[id].authCtxID == id
    }

    /** What Get answers: the stored session unless it has outlived the time-to-live. */
    ghost function Lookup(id: string, now: int): Option<Session>
      reads this, sessions.Values
    {
      if id in sessions && !sessions[id].View().IsExpired(ttl, now) then Some(sessions[id]) else None
    }

    constructor (ttl: int)
      ensures Valid() && sessions == map[] && this.ttl == ttl
    {
      sessions, this.ttl := map[], ttl;
    }

    method Get(id: string, now: int) returns (r: Option<Session>)
      ensures r == Lookup(id, now)
    {
      if id !in sessions {
        return None;
      }
      var session := sessions[id];
      if now - session.createdAt > ttl {
        return None;
      }
      return Some(session);
    }

    method Put(session: Session)
      requires Valid()
      modifies this
      ensures Valid() && sessions == old(sessions)[session.authCtxID := session]
      ensures forall t :: Lookup(session.authCtxID, t) == if t - session.createdAt > ttl then None else Some(session)
    {
      sessions := sessions[session.authCtxID := session];
    }

    method Delete(id: string)
      requires Valid()
      modifies this
      ensures Valid() && sessions == old(sessions) - {id} && forall t :: Lookup(id, t) == None
    {
      sessions := sessions - {id};
    }

    /** Removes the expired sessions, which no Get at this or any later time could see: afterwards every
        later Get answers as it would have without the clean-up. */
    method Cleanup(now: int) returns (count: nat)
      requires Valid()
      modifies this
      ensures Valid()
      ensures forall id :: id in sessions <==> id in old(sessions) && !old(sessions)[id].View().IsExpired(ttl, now)
      ensures forall id | id in sessions :: sessions[id] == old(sessions)[id]
      ensures count == |old(sessions)| - |sessions|
      ensures forall id, t | t >= now :: Lookup(id, t) == old(Lookup(id, t))
    {
      count := DropExpired(now);
    }

    /** The loop over the sessions. */
    method DropExpired(now: int) returns (count: nat)
      requires Valid()
      modifies this
      ensures Valid()
      ensures forall id :: id in sessions <==> id in old(sessions) && !old(sessions)[id].View().IsExpired(ttl, now)
      ensures forall id | id in sessions :: sessions[id] == old(sessions)[id]
      ensures count == |old(sessions)| - |sessions|
    {
      var cutoff := now - ttl;
      count := 0;
      var todo := sessions.Keys;
      while todo != {}
        invariant todo <= sessions.Keys <= old(sessions).Keys
        invariant forall id | id in sessions :: sessions[id] == old(sessions)[id]
        invariant forall id | id in old(sessions) && id !in todo ::
                    id in sessions <==> !old(sessions)[id].View().IsExpired(ttl, now)
        invariant count == |old(sessions)| - |sessions|
        decreases todo
      {
        var id :| id in todo;
        if sessions[id].createdAt < cutoff {
          assert sessions.Keys == (sessions - {id}).Keys + {id};
          sessions := sessions - {id};
          count := count + 1;
        }
        todo := todo - {id};
      }
    }
  }
}
