/** Pairing codes, sessions and the attempt limiter: one call at a time, on instants counted in nanoseconds. */
module PairingAuth {
  import opened Wrappers

  const SECOND := 1_000_000_000
  const SESSION_MAX_AGE := 60 * 60 * 24 * 30 * SECOND
  const MAX_SESSIONS := 1024
  const MAX_FAILURES := 5
  const FAILURE_WINDOW := 60 * SECOND
  const CLEANUP_INTERVAL := 60 * SECOND

  /** What the lock guards. */
  datatype Records = Records(sessions: map<string, int>, failures: seq<int>, nextCleanup: Option<int>)

  const EMPTY := Records(map[], [], None)

  datatype Answer =
    | Token(token: string)
    | InvalidCode
    | RateLimited(retryAfter: nat)

  /**
    One call and what it finds outside the records: its time, the random token it would hand out, and the
    key that the session table would yield first. The time of a revocation is not looked at.
    */
  datatype Call =
    | Pair(code: string, now: int, token: string, first: string)
    | Query(session: Option<string>, now: int)
    | Revoke(session: Option<string>, now: int)

  /** A code of four ASCII digits, or no pairing at all. */
  predicate ValidCode(code: Option<string>) {
    code.Some? ==> |code.value| == 4 && forall c <- code.value :: '0' <= c <= '9'
  }

  // ---------------------------------------------------------------------------------------------
  // What one call does to the records
  // ---------------------------------------------------------------------------------------------

  function Sweep(r: Records, now: int): (swept: Records)
    ensures swept.failures == r.failures
  {
    if r.nextCleanup.Some? && now < r.nextCleanup.value then r
    else r.(sessions := map token | token in r.sessions && r.sessions[token] > now :: r.sessions[token],
            nextCleanup := Some(now + CLEANUP_INTERVAL))
  }

  /** Failures that have left the window are popped from the front, up to the first that has not. */
  function PopExpired(failures: seq<int>, cutoff: int): (rest: seq<int>)
    ensures |rest| <= |failures| && (rest != [] ==> rest[0] > cutoff)
  {
    if failures != [] && failures[0] <= cutoff then PopExpired(failures[1..], cutoff) else failures
  }

  /** A delay in whole seconds, rounded up, and at least one. */
  function WholeSeconds(delay: int): nat {
    var positive := if delay < 0 then 0 else delay;
    var seconds := positive / SECOND + (if positive % SECOND > 0 then 1 else 0);
    if seconds < 1 then 1 else seconds
  }

  /** The records as a pairing attempt finds them. */
  function Opened(r: Records, now: int): Records {
    Sweep(r, now).(failures := PopExpired(r.failures, now - FAILURE_WINDOW))
  }

  function PairAnswer(expected: string, r: Records, code: string, now: int, token: string): Answer {
    var failures := Opened(r, now).failures;
    if |failures| >= MAX_FAILURES then RateLimited(WholeSeconds(failures[0] + FAILURE_WINDOW - now))
    else if code == expected then Token(token)
    else InvalidCode
  }

  /** The session a pairing gives up to make room. */
  function Evicted(expected: string, r: Records, call: Call): Option<string>
    requires call.Pair?
  {
    if PairAnswer(expected, r, call.code, call.now, call.token).Token? && |Opened(r, call.now).sessions| >= MAX_SESSIONS
    then Some(call.first) else None
  }

  function AfterPair(expected: string, r: Records, call: Call): Records
    requires call.Pair?
  {
    var opening := Opened(r, call.now);
    match PairAnswer(expected, r, call.code, call.now, call.token)
    case RateLimited(_) => opening
    case InvalidCode => opening.(failures := opening.failures + [call.now])
    case Token(token) =>
      var kept := if Evicted(expected, r, call).Some? then opening.sessions - {call.first} else opening.sessions;
      opening.(sessions := kept[token := call.now + SESSION_MAX_AGE])
  }

  predicate QueryAnswer(pairing: Option<string>, r: Records, session: Option<string>, now: int) {
    if pairing.None? then true
    else if session.None? then false
    else
      var swept := Sweep(r, now);
      session.value in swept.sessions && swept.sessions[session.value] > now
  }

  function After(pairing: Option<string>, r: Records, call: Call): Records {
    match call
    case Pair(_, _, _, _) => if pairing.None? then r else AfterPair(pairing.value, r, call)
    case Query(session, now) => if pairing.None? || session.None? then r else Sweep(r, now)
    case Revoke(session, _) => if session.None? then r else r.(sessions := r.sessions - {session.value})
  }

  // ---------------------------------------------------------------------------------------------
  // The service
  // ---------------------------------------------------------------------------------------------

  class Service {
    const pairingCode: Option<string>
    var sessions: map<string, int>
    var failures: seq<int>
    var nextCleanup: Option<int>

    constructor (code: Option<string>)
      requires ValidCode(code)
      ensures pairingCode == code && State() == EMPTY
    {
      pairingCode := code;
      sessions, failures, nextCleanup := map[], [], None;
    }

    /** `new`: nothing but four digits is taken as a code. */
    static method New(code: Option<string>) returns (service: Option<Service>)
      ensures service.Some? <==> ValidCode(code)
      ensures service.Some? ==>
                fresh(service.value) && service.value.pairingCode == code && service.value.State() == EMPTY
    {
      if code.Some? && !(|code.value| == 4 && forall c <- code.value :: '0' <= c <= '9') {
        return None;
      }
      var made := new Service(code);
      return Some(made);
    }

    ghost function State(): Records
      reads this
    {
      Records(sessions, failures, nextCleanup)
    }

    method Cleanup(now: int)
      modifies `sessions, `nextCleanup
      ensures State() == Sweep(old(State()), now)
    {
      if nextCleanup.Some? && now < nextCleanup.value {
        return;
      }
      nextCleanup := Some(now + CLEANUP_INTERVAL);
      sessions := map token | token in sessions && sessions[token] > now :: sessions[token];
    }

    /**
      `pair_at`. The table yields some key first when it is full; which one is not ours to choose, so the
      contract holds for whatever it was.
      */
    method PairAt(code: string, now: int, token: string) returns (answer: Answer, ghost first: string)
      modifies this
      ensures State() == After(pairingCode, old(State()), Pair(code, now, token, first))
      ensures answer == (if pairingCode.None? then Token(token)
                         else PairAnswer(pairingCode.value, old(State()), code, now, token))
      ensures pairingCode.Some? && Evicted(pairingCode.value, old(State()), Pair(code, now, token, first)).Some? ==>
                first in Opened(old(State()), now).sessions
    {
      hide Sweep, WholeSeconds;
      first := "";
      if pairingCode.None? {
        return Token(token), first;
      }
      Cleanup(now);
      var cutoff := now - FAILURE_WINDOW;
      while failures != [] && failures[0] <= cutoff
        invariant State() == Sweep(old(State()), now).(failures := failures)
        invariant PopExpired(failures, cutoff) == PopExpired(old(failures), cutoff)
        decreases |failures|
      {
        failures := failures[1..];
      }
      assert State() == Opened(old(State()), now);
      if |failures| >= MAX_FAILURES {
        return RateLimited(WholeSeconds(failures[0] + FAILURE_WINDOW - now)), first;
      }
      if code == pairingCode.value {
        if |sessions| >= MAX_SESSIONS {
          assert sessions.Keys != {};
          var oldest :| oldest in sessions;
          first := oldest;
          sessions := sessions - {oldest};
        }
        sessions := sessions[token := now + SESSION_MAX_AGE];
        return Token(token), first;
      }
      failures := failures + [now];
      return InvalidCode, first;
    }

    method AuthenticatedAt(session: Option<string>, now: int) returns (yes: bool)
      modifies `sessions, `nextCleanup
      ensures State() == After(pairingCode, old(State()), Query(session, now))
      ensures yes == QueryAnswer(pairingCode, old(State()), session, now)
    {
      if pairingCode.None? {
        return true;
      }
      if session.None? {
        return false;
      }
      Cleanup(now);
      return session.value in sessions && sessions[session.value] > now;
    }

    method RevokeSession(session: Option<string>)
      modifies `sessions
      ensures forall now :: State() == After(pairingCode, old(State()), Revoke(session, now))
    {
      if session.Some? {
        sessions := sessions - {session.value};
      }
    }
  }
}
