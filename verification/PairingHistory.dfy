/** The limiter and the session table against the whole history of calls. */
module PairingHistory {
  import opened Wrappers
  import opened PairingAuth

  /** The records after a run of calls from the start of the service. */
  function Run(pairing: Option<string>, calls: seq<Call>): Records {
    if calls == [] then EMPTY else After(pairing, Run(pairing, calls[..|calls| - 1]), calls[|calls| - 1])
  }

  /** No call comes before an earlier one, and a full table yields one of its own keys. */
  ghost predicate Possible(expected: string, calls: seq<Call>) {
    calls != [] ==>
      var before, last := calls[..|calls| - 1], calls[|calls| - 1];
      && Possible(expected, before)
      && (before != [] ==> before[|before| - 1].now <= last.now)
      && (last.Pair? && Evicted(expected, Run(Some(expected), before), last).Some? ==>
            last.first in Opened(Run(Some(expected), before), last.now).sessions)
  }

  // ---------------------------------------------------------------------------------------------
  // What the history says, without the deque, the table or the sweeps
  // ---------------------------------------------------------------------------------------------

  function AnswerTo(expected: string, calls: seq<Call>): Answer
    requires calls != [] && calls[|calls| - 1].Pair?
  {
    var last := calls[|calls| - 1];
    PairAnswer(expected, Run(Some(expected), calls[..|calls| - 1]), last.code, last.now, last.token)
  }

  /** The times of all the attempts that were ever answered InvalidCode. */
  function WrongCodes(expected: string, calls: seq<Call>): seq<int> {
    if calls == [] then []
    else
      var earlier := WrongCodes(expected, calls[..|calls| - 1]);
      var last := calls[|calls| - 1];
      if last.Pair? && AnswerTo(expected, calls).InvalidCode? then earlier + [last.now] else earlier
  }

  /** The times later than the cutoff. */
  function Since(times: seq<int>, cutoff: int): seq<int> {
    if times == [] then []
    else
      var earlier := Since(times[..|times| - 1], cutoff);
      var last := times[|times| - 1];
      if last > cutoff then earlier + [last] else earlier
  }

  /** When a token expires, if it was issued and then neither revoked nor evicted. */
  function ValidUntil(expected: string, calls: seq<Call>, token: string): Option<int> {
    if calls == [] then None
    else
      var before, last := calls[..|calls| - 1], calls[|calls| - 1];
      match last
      case Pair(_, now, issued, _) =>
        if AnswerTo(expected, calls) == Token(token) then Some(now + 30 * 24 * 60 * 60 * SECOND)
        else if Evicted(expected, Run(Some(expected), before), last) == Some(token) then None
        else ValidUntil(expected, before, token)
      case Query(_, _) => ValidUntil(expected, before, token)
      case Revoke(session, _) => if session == Some(token) then None else ValidUntil(expected, before, token)
  }

  /** The calls that look at the session table. */
  predicate Sweeps(call: Call) {
    call.Pair? || (call.Query? && call.session.Some?)
  }

  /** When the table was last swept: at the first of those calls, and then whenever a minute has gone by. */
  function LastSweep(calls: seq<Call>): Option<int> {
    if calls == [] then None
    else
      var earlier, last := LastSweep(calls[..|calls| - 1]), calls[|calls| - 1];
      var due := Sweeps(last) && (earlier.None? || last.now >= earlier.value + CLEANUP_INTERVAL);
      if due then Some(last.now) else earlier
  }

  function Latest(calls: seq<Call>): int
    requires calls != []
  {
    calls[|calls| - 1].now
  }

  // ---------------------------------------------------------------------------------------------
  // The limiter
  // ---------------------------------------------------------------------------------------------

  ghost predicate Ordered(times: seq<int>) {
    forall i, j :: 0 <= i < j < |times| ==> times[i] <= times[j]
  }

  lemma {:induction false} SinceAgain(times: seq<int>, cutoff: int, later: int)
    requires cutoff <= later
    ensures Since(Since(times, cutoff), later) == Since(times, later)
  {
    if times != [] {
      var earlier := times[..|times| - 1];
      SinceAgain(earlier, cutoff, later);
      var kept := Since(earlier, cutoff);
      var last := times[|times| - 1];
      assert (kept + [last])[..|kept|] == kept;
    }
  }

  lemma {:induction false} SinceNone(times: seq<int>, cutoff: int)
    requires forall i :: 0 <= i < |times| ==> times[i] <= cutoff
    ensures Since(times, cutoff) == []
  {
    if times != [] {
      SinceNone(times[..|times| - 1], cutoff);
    }
  }

  lemma {:induction false} SinceAll(times: seq<int>, cutoff: int)
    requires forall i :: 0 <= i < |times| ==> times[i] > cutoff
    ensures Since(times, cutoff) == times
  {
    if times != [] {
      SinceAll(times[..|times| - 1], cutoff);
    }
  }

  lemma {:induction false} SinceJoined(early: seq<int>, late: seq<int>, cutoff: int)
    ensures Since(early + late, cutoff) == Since(early, cutoff) + Since(late, cutoff)
  {
    if late == [] {
      assert early + late == early;
    } else {
      SinceJoined(early, late[..|late| - 1], cutoff);
      assert (early + late)[..|early + late| - 1] == early + late[..|late| - 1];
    }
  }

  /** On times in order, popping from the front keeps exactly what is in the window. */
  lemma {:induction false} PopIsSince(times: seq<int>, cutoff: int)
    requires Ordered(times)
    ensures PopExpired(times, cutoff) == Since(times, cutoff)
  {
    if times == [] {
    } else if times[0] <= cutoff {
      PopIsSince(times[1..], cutoff);
      SinceJoined(times[..1], times[1..], cutoff);
      SinceNone(times[..1], cutoff);
      assert times == times[..1] + times[1..];
    } else {
      SinceAll(times, cutoff);
    }
  }

  lemma {:induction false} PopIsSuffix(times: seq<int>, cutoff: int)
    ensures var rest := PopExpired(times, cutoff); |rest| <= |times| && rest == times[|times| - |rest|..]
  {
    if times != [] && times[0] <= cutoff {
      PopIsSuffix(times[1..], cutoff);
    }
  }

  /** At a given time the deque holds what the window can still see of the whole history. */
  ghost predicate Agree(deque: seq<int>, all: seq<int>, now: int) {
    && Ordered(deque) && Ordered(all) && |deque| <= MAX_FAILURES
    && (forall i :: 0 <= i < |deque| ==> deque[i] <= now)
    && (forall i :: 0 <= i < |all| ==> all[i] <= now)
    && Since(deque, now - FAILURE_WINDOW) == Since(all, now - FAILURE_WINDOW)
  }

  lemma AgreeFromTheStart(now: int)
    ensures Agree([], [], now)
  {
  }

  lemma StillAgree(deque: seq<int>, all: seq<int>, now: int, later: int)
    requires Agree(deque, all, now) && now <= later
    ensures Agree(deque, all, later)
  {
    SinceAgain(deque, now - FAILURE_WINDOW, later - FAILURE_WINDOW);
    SinceAgain(all, now - FAILURE_WINDOW, later - FAILURE_WINDOW);
  }

  lemma AgreePopped(deque: seq<int>, all: seq<int>, now: int)
    requires Agree(deque, all, now)
    ensures PopExpired(deque, now - FAILURE_WINDOW) == Since(all, now - FAILURE_WINDOW)
    ensures Agree(PopExpired(deque, now - FAILURE_WINDOW), all, now)
  {
    PopIsSince(deque, now - FAILURE_WINDOW);
    PopIsSuffix(deque, now - FAILURE_WINDOW);
    SinceAgain(deque, now - FAILURE_WINDOW, now - FAILURE_WINDOW);
  }

  lemma AgreeAppended(deque: seq<int>, all: seq<int>, now: int)
    requires Agree(deque, all, now) && |deque| < MAX_FAILURES
    ensures Agree(deque + [now], all + [now], now)
  {
    hide Since;
    SinceJoined(deque, [now], now - FAILURE_WINDOW);
    SinceJoined(all, [now], now - FAILURE_WINDOW);
    OrderedAppended(deque, now);
    OrderedAppended(all, now);
    hide Ordered;
  }

  lemma OrderedAppended(times: seq<int>, now: int)
    requires Ordered(times) && forall i :: 0 <= i < |times| ==> times[i] <= now
    ensures Ordered(times + [now])
  {
  }

  /** What one more call does to the deque and to the history of wrong codes. */
  lemma OneMoreCall(expected: string, calls: seq<Call>)
    requires calls != []
    ensures var before, last := calls[..|calls| - 1], calls[|calls| - 1];
            var deque, all := Run(Some(expected), before).failures, WrongCodes(expected, before);
            var window := PopExpired(deque, last.now - FAILURE_WINDOW);
            var newDeque, newAll := Run(Some(expected), calls).failures, WrongCodes(expected, calls);
            if !last.Pair? then newDeque == deque && newAll == all
            else if AnswerTo(expected, calls).InvalidCode?
            then |window| < MAX_FAILURES && newDeque == window + [last.now] && newAll == all + [last.now]
            else newDeque == window && newAll == all
  {
    hide PopExpired, Sweep, WholeSeconds;
  }

  lemma {:induction false} DequeAgrees(expected: string, calls: seq<Call>, now: int)
    requires Possible(expected, calls) && (calls != [] ==> Latest(calls) <= now)
    ensures Agree(Run(Some(expected), calls).failures, WrongCodes(expected, calls), now)
  {
    hide Agree, PopExpired, Sweep, WholeSeconds, Since, AfterPair;
    if calls == [] {
      AgreeFromTheStart(now);
    } else {
      var before, last := calls[..|calls| - 1], calls[|calls| - 1];
      DequeAgrees(expected, before, last.now);
      OneMoreCall(expected, calls);
      var deque, all := Run(Some(expected), before).failures, WrongCodes(expected, before);
      if last.Pair? {
        AgreePopped(deque, all, last.now);
        if AnswerTo(expected, calls).InvalidCode? {
          AgreeAppended(PopExpired(deque, last.now - FAILURE_WINDOW), all, last.now);
        }
      }
      StillAgree(Run(Some(expected), calls).failures, WrongCodes(expected, calls), last.now, now);
    }
  }

  /** What an attempt finds in the deque is what the history holds within its window. */
  lemma WindowSeen(expected: string, calls: seq<Call>, now: int)
    requires Possible(expected, calls) && (calls != [] ==> Latest(calls) <= now)
    ensures Opened(Run(Some(expected), calls), now).failures == Since(WrongCodes(expected, calls), now - FAILURE_WINDOW)
  {
    DequeAgrees(expected, calls, now);
    AgreePopped(Run(Some(expected), calls).failures, WrongCodes(expected, calls), now);
  }

  /**
    An attempt is refused unheard exactly when five wrong codes in the whole history lie in the last minute;
    otherwise the code alone decides.
    */
  lemma RateLimitedIff(expected: string, calls: seq<Call>)
    requires calls != [] && Possible(expected, calls) && calls[|calls| - 1].Pair?
    ensures var before, last := calls[..|calls| - 1], calls[|calls| - 1];
            var answer := AnswerTo(expected, calls);
            && (answer.RateLimited? <==>
                 |Since(WrongCodes(expected, before), last.now - 60 * SECOND)| >= 5)
            && (!answer.RateLimited? ==> answer == if last.code == expected then Token(last.token) else InvalidCode)
  {
    hide Sweep, WholeSeconds, Since, PopExpired;
    WindowSeen(expected, calls[..|calls| - 1], calls[|calls| - 1].now);
  }

  // ---------------------------------------------------------------------------------------------
  // Six wrong codes
  // ---------------------------------------------------------------------------------------------

  lemma FifthFromTheEnd(times: seq<int>, cutoff: int)
    requires Ordered(times) && |times| >= MAX_FAILURES && |Since(times, cutoff)| < MAX_FAILURES
    ensures times[|times| - MAX_FAILURES] <= cutoff
  {
    var early, late := times[..|times| - MAX_FAILURES], times[|times| - MAX_FAILURES..];
    if late[0] > cutoff {
      SinceAll(late, cutoff);
      assert times == early + late;
      SinceJoined(early, late, cutoff);
      assert false;
    }
  }

  /** Any six wrong codes that were heard span at least a minute. */
  lemma {:induction false} SixWrongCodes(expected: string, calls: seq<Call>, i: nat)
    requires Possible(expected, calls) && i + 5 < |WrongCodes(expected, calls)|
    ensures WrongCodes(expected, calls)[i + 5] - WrongCodes(expected, calls)[i] >= 60 * SECOND
  {
    hide Possible, AnswerTo, Run;
    var before := calls[..|calls| - 1];
    PossibleBefore(expected, calls);
    if i + 5 < |WrongCodes(expected, before)| {
      SixWrongCodes(expected, before, i);
    } else {
      SixthWrongCode(expected, calls);
    }
  }

  lemma PossibleBefore(expected: string, calls: seq<Call>)
    requires calls != [] && Possible(expected, calls)
    ensures Possible(expected, calls[..|calls| - 1])
  {
  }

  /** A wrong code that is heard comes a minute after the fifth wrong code before it. */
  lemma SixthWrongCode(expected: string, calls: seq<Call>)
    requires calls != [] && Possible(expected, calls)
    requires calls[|calls| - 1].Pair? && AnswerTo(expected, calls).InvalidCode?
    ensures var all := WrongCodes(expected, calls[..|calls| - 1]);
            |all| >= MAX_FAILURES ==> calls[|calls| - 1].now - all[|all| - MAX_FAILURES] >= FAILURE_WINDOW
  {
    hide PopExpired, Sweep, WholeSeconds, Since, AfterPair;
    var before, last := calls[..|calls| - 1], calls[|calls| - 1];
    var all := WrongCodes(expected, before);
    if |all| >= MAX_FAILURES {
      RateLimitedIff(expected, calls);
      DequeAgrees(expected, before, last.now);
      hide WrongCodes, Run, Possible;
      FifthFromTheEnd(all, last.now - FAILURE_WINDOW);
    }
  }

  // ---------------------------------------------------------------------------------------------
  // The retry hint
  // ---------------------------------------------------------------------------------------------

  /** A delay in whole seconds is the least number of them, from one on, that covers it. */
  lemma WholeSecondsAre(delay: int, seconds: nat)
    ensures WholeSeconds(delay) >= 1 && WholeSeconds(delay) * 1_000_000_000 >= delay
    ensures seconds >= 1 && seconds * 1_000_000_000 >= delay ==> seconds >= WholeSeconds(delay)
  {
  }

  lemma WholeWindow(window: seq<int>, cutoff: int)
    requires Ordered(window) && window != []
    ensures |Since(window, cutoff)| >= |window| <==> window[0] > cutoff
  {
    PopIsSince(window, cutoff);
  }

  lemma LeastSeconds(delay: int, k: nat)
    requires 0 < delay <= FAILURE_WINDOW
    ensures 1 <= WholeSeconds(delay) <= 60
    ensures k * SECOND < delay <==> k < WholeSeconds(delay)
  {
  }

  /**
    The hint is the least whole number of seconds after which an attempt is heard again, as long as no wrong
    code was heard in between; attempts that were themselves refused unheard do not push it out.
    */
  lemma RetryHintIsExact(expected: string, calls: seq<Call>, between: seq<Call>, next: Call, k: nat)
    requires calls != [] && calls[|calls| - 1].Pair? && AnswerTo(expected, calls).RateLimited?
    requires next.Pair? && next.now == Latest(calls) + k * SECOND
    requires Possible(expected, calls) && Possible(expected, calls + between)
    requires Possible(expected, calls + between + [next])
    requires WrongCodes(expected, calls + between) == WrongCodes(expected, calls)
    ensures 1 <= AnswerTo(expected, calls).retryAfter <= 60
    ensures AnswerTo(expected, calls + between + [next]).RateLimited? <==> k < AnswerTo(expected, calls).retryAfter
  {
    hide PopExpired, Sweep, WholeSeconds, Since, AfterPair, Agree, Possible, WrongCodes;
    var before, last := calls[..|calls| - 1], calls[|calls| - 1];
    var all := WrongCodes(expected, calls);
    LimitedAnswer(expected, calls);
    assert (calls + between + [next])[..|calls + between|] == calls + between;
    RateLimitedIff(expected, calls + between + [next]);
    HintOnHistory(all, last.now, k);
  }

  /** A refusal names the first of exactly five wrong codes in its window, and is not one itself. */
  lemma LimitedAnswer(expected: string, calls: seq<Call>)
    requires calls != [] && Possible(expected, calls) && calls[|calls| - 1].Pair?
             && AnswerTo(expected, calls).RateLimited?
    ensures var all, now := WrongCodes(expected, calls), Latest(calls);
            var window := Since(all, now - FAILURE_WINDOW);
            && Ordered(all) && (forall i :: 0 <= i < |all| ==> all[i] <= now) && |window| == MAX_FAILURES
            && AnswerTo(expected, calls).retryAfter == WholeSeconds(window[0] + FAILURE_WINDOW - now)
  {
    hide PopExpired, Sweep, WholeSeconds, Since, AfterPair;
    var before, last := calls[..|calls| - 1], calls[|calls| - 1];
    WindowSeen(expected, before, last.now);
    DequeAgrees(expected, before, last.now);
    AgreePopped(Run(Some(expected), before).failures, WrongCodes(expected, before), last.now);
  }

  lemma HintOnHistory(all: seq<int>, now: int, k: nat)
    requires Ordered(all) && (forall i :: 0 <= i < |all| ==> all[i] <= now)
    requires |Since(all, now - FAILURE_WINDOW)| == MAX_FAILURES
    ensures var hint := WholeSeconds(Since(all, now - FAILURE_WINDOW)[0] + FAILURE_WINDOW - now);
            1 <= hint <= 60 && (|Since(all, now + k * SECOND - 60 * SECOND)| >= 5 <==> k < hint)
  {
    hide WholeSeconds, Since;
    var window := Since(all, now - FAILURE_WINDOW);
    PopIsSince(all, now - FAILURE_WINDOW);
    PopIsSuffix(all, now - FAILURE_WINDOW);
    SinceAgain(all, now - FAILURE_WINDOW, now + k * SECOND - FAILURE_WINDOW);
    WholeWindow(window, now + k * SECOND - FAILURE_WINDOW);
    LeastSeconds(window[0] + FAILURE_WINDOW - now, k);
  }

  // ---------------------------------------------------------------------------------------------
  // The session table
  // ---------------------------------------------------------------------------------------------

  /** A table that was last swept at a given time. */
  ghost predicate Holds(r: Records, validUntil: Option<int>, token: string) {
    match r.nextCleanup
    case None => token !in r.sessions && validUntil.None?
    case Some(next) =>
      && (token in r.sessions <==> validUntil.Some? && validUntil.value > next - CLEANUP_INTERVAL)
      && (token in r.sessions ==> validUntil == Some(r.sessions[token]))
  }

  lemma SweepHolds(r: Records, validUntil: Option<int>, token: string, now: int)
    requires Holds(r, validUntil, token)
    ensures Holds(Sweep(r, now), validUntil, token)
  {
  }

  lemma SweepTime(r: Records, now: int)
    requires r.nextCleanup.Some? ==> r.nextCleanup.value <= now + CLEANUP_INTERVAL
    ensures Sweep(r, now).nextCleanup.Some? && now < Sweep(r, now).nextCleanup.value <= now + CLEANUP_INTERVAL
  {
  }

  lemma {:induction false} NextCleanupSoon(expected: string, calls: seq<Call>, now: int)
    requires Possible(expected, calls) && (calls != [] ==> Latest(calls) <= now)
    ensures var r := Run(Some(expected), calls);
            r.nextCleanup.Some? ==> r.nextCleanup.value <= now + CLEANUP_INTERVAL
  {
    hide PopExpired, WholeSeconds, PairAnswer;
    if calls != [] {
      NextCleanupSoon(expected, calls[..|calls| - 1], Latest(calls));
    }
  }

  lemma {:induction false} TableHolds(expected: string, calls: seq<Call>, token: string)
    requires Possible(expected, calls)
    ensures Holds(Run(Some(expected), calls), ValidUntil(expected, calls, token), token)
  {
    hide PopExpired, WholeSeconds, Sweep, PairAnswer;
    if calls != [] {
      var before, last := calls[..|calls| - 1], calls[|calls| - 1];
      var r := Run(Some(expected), before);
      TableHolds(expected, before, token);
      SweepHolds(r, ValidUntil(expected, before, token), token, last.now);
      NextCleanupSoon(expected, before, last.now);
      SweepTime(r, last.now);
    }
  }

  lemma {:induction false} CleanupFollowsSweep(expected: string, calls: seq<Call>)
    ensures var swept := LastSweep(calls);
            Run(Some(expected), calls).nextCleanup ==
            if swept.None? then None else Some(swept.value + CLEANUP_INTERVAL)
  {
    hide AfterPair;
    if calls != [] {
      CleanupFollowsSweep(expected, calls[..|calls| - 1]);
      PairingSweeps(expected, Run(Some(expected), calls[..|calls| - 1]), calls[|calls| - 1]);
    }
  }

  lemma PairingSweeps(expected: string, r: Records, call: Call)
    ensures call.Pair? ==> AfterPair(expected, r, call).nextCleanup == Sweep(r, call.now).nextCleanup
  {
    hide PopExpired, WholeSeconds, PairAnswer, Sweep;
  }

  /** The table holds exactly the tokens that were still valid at the time of the last sweep. */
  lemma TableIsHistory(expected: string, calls: seq<Call>, token: string)
    requires Possible(expected, calls)
    ensures var sessions, until := Run(Some(expected), calls).sessions, ValidUntil(expected, calls, token);
            var swept := LastSweep(calls);
            && (token in sessions <==> swept.Some? && until.Some? && until.value > swept.value)
            && (token in sessions ==> until == Some(sessions[token]))
  {
    CleanupFollowsSweep(expected, calls);
    TableHolds(expected, calls, token);
  }

  /** A session is accepted exactly when it was issued, not taken back and has not expired, whenever the sweeps ran. */
  lemma {:induction false} AuthenticatedIff(expected: string, calls: seq<Call>, token: string, now: int)
    requires Possible(expected, calls) && (calls != [] ==> Latest(calls) <= now)
    ensures QueryAnswer(Some(expected), Run(Some(expected), calls), Some(token), now)
       <==> ValidUntil(expected, calls, token).Some? && ValidUntil(expected, calls, token).value > now
  {
    hide Sweep;
    var r := Run(Some(expected), calls);
    TableHolds(expected, calls, token);
    SweepHolds(r, ValidUntil(expected, calls, token), token, now);
    NextCleanupSoon(expected, calls, now);
    SweepTime(r, now);
  }

  /**
   Over every run a request is let in exactly when no pairing is set up, or it names a session that was issued, not
   taken back and has not expired.
   */
  lemma RequestAllowedIff(pairing: Option<string>, calls: seq<Call>, session: Option<string>, now: int)
    requires pairing.Some? ==> Possible(pairing.value, calls)
    requires calls != [] ==> Latest(calls) <= now
    ensures QueryAnswer(pairing, Run(pairing, calls), session, now) <==>
              || pairing.None?
              || (session.Some? &&
                  var until := ValidUntil(pairing.value, calls, session.value); until.Some? && until.value > now)
  {
    hide Sweep, Run, ValidUntil, Possible;
    if pairing.Some? && session.Some? {
      AuthenticatedIff(pairing.value, calls, session.value, now);
    }
  }

  lemma {:induction false} AtMostMaxSessions(pairing: Option<string>, calls: seq<Call>)
    requires pairing.Some? ==> Possible(pairing.value, calls)
    ensures |Run(pairing, calls).sessions| <= 1024
    ensures pairing.None? ==> Run(pairing, calls) == EMPTY
  {
    if calls != [] {
      var before, last := calls[..|calls| - 1], calls[|calls| - 1];
      AtMostMaxSessions(pairing, before);
      StepKeepsTableSmall(pairing, Run(pairing, before), last);
    }
  }

  lemma StepKeepsTableSmall(pairing: Option<string>, r: Records, call: Call)
    requires |r.sessions| <= MAX_SESSIONS
    requires pairing.Some? && call.Pair? && Evicted(pairing.value, r, call).Some? ==>
             call.first in Opened(r, call.now).sessions
    ensures |After(pairing, r, call).sessions| <= MAX_SESSIONS
  {
    hide PopExpired, WholeSeconds, PairAnswer;
    FewerKeys(Sweep(r, call.now).sessions, r.sessions);
    if call.Revoke? && call.session.Some? {
      FewerKeys(r.sessions - {call.session.value}, r.sessions);
    }
    if pairing.Some? && call.Pair? {
      var opening := Opened(r, call.now).sessions;
      var without := opening - {call.first};
      if Evicted(pairing.value, r, call).Some? {
        assert without.Keys == opening.Keys - {call.first};
        OneMoreKey(without, call.token, call.now + SESSION_MAX_AGE);
      } else {
        OneMoreKey(opening, call.token, call.now + SESSION_MAX_AGE);
      }
    }
  }

  lemma FewerKeys(small: map<string, int>, big: map<string, int>)
    requires small.Keys <= big.Keys
    ensures |small| <= |big|
  {
    KeysBelow(small.Keys, big.Keys);
  }

  lemma {:induction false} KeysBelow(small: set<string>, big: set<string>)
    requires small <= big
    ensures |small| <= |big|
  {
    if small != {} {
      var k :| k in small;
      KeysBelow(small - {k}, big - {k});
    }
  }

  lemma OneMoreKey(m: map<string, int>, key: string, value: int)
    ensures |m[key := value]| <= |m| + 1
  {
    assert m[key := value].Keys == m.Keys + {key};
  }

  /** A revoked token is refused for as long as it is not handed out again. */
  lemma {:induction false} RevocationLasts(
      expected: string, calls: seq<Call>, revoke: Call, later: seq<Call>, token: string, now: int)
    requires revoke == Revoke(Some(token), revoke.now) && Possible(expected, calls + [revoke] + later)
    requires forall i :: 0 <= i < |later| && later[i].Pair? ==> later[i].token != token
    requires Latest(calls + [revoke] + later) <= now
    ensures !QueryAnswer(Some(expected), Run(Some(expected), calls + [revoke] + later), Some(token), now)
  {
    AuthenticatedIff(expected, calls + [revoke] + later, token, now);
    StaysRevoked(expected, calls, revoke, later, token);
  }

  lemma {:induction false} StaysRevoked(expected: string, calls: seq<Call>, revoke: Call, later: seq<Call>,
      token: string)
    requires revoke == Revoke(Some(token), revoke.now)
    requires forall i :: 0 <= i < |later| && later[i].Pair? ==> later[i].token != token
    ensures ValidUntil(expected, calls + [revoke] + later, token).None?
  {
    hide PopExpired, WholeSeconds, Sweep;
    var all := calls + [revoke] + later;
    if later == [] {
      assert all[|all| - 1] == revoke;
    } else {
      assert all[..|all| - 1] == calls + [revoke] + later[..|later| - 1];
      StaysRevoked(expected, calls, revoke, later[..|later| - 1], token);
    }
  }

  /**
    A pairing gives up a session exactly when 1024 were valid at the last sweep, which is less than a minute
    back: so it may give one up while fewer are valid now, but never one that expired a minute ago.
    */
  lemma EvictionIff(expected: string, calls: seq<Call>, next: Call) returns (valid: set<string>)
    requires next.Pair? && Possible(expected, calls + [next]) && AnswerTo(expected, calls + [next]).Token?
    ensures var swept := LastSweep(calls + [next]);
            swept.Some? && next.now - CLEANUP_INTERVAL < swept.value <= next.now
    ensures forall token :: token in valid <==>
              var until := ValidUntil(expected, calls, token);
              until.Some? && until.value > LastSweep(calls + [next]).value
    ensures Evicted(expected, Run(Some(expected), calls), next).Some? <==> |valid| >= 1024
    ensures Evicted(expected, Run(Some(expected), calls), next).Some? ==> next.first in valid
  {
    hide PopExpired, WholeSeconds, PairAnswer;
    assert (calls + [next])[..|calls|] == calls;
    var r := Run(Some(expected), calls);
    var swept := Sweep(r, next.now);
    valid := swept.sessions.Keys;
    NextCleanupSoon(expected, calls, next.now);
    SweepTime(r, next.now);
    CleanupFollowsSweep(expected, calls);
    CleanupFollowsSweep(expected, calls + [next]);
    hide Sweep, LastSweep;
    forall token
      ensures token in valid <==>
                var until := ValidUntil(expected, calls, token);
                until.Some? && until.value > LastSweep(calls + [next]).value
    {
      TableHolds(expected, calls, token);
      SweepHolds(r, ValidUntil(expected, calls, token), token, next.now);
    }
  }
}
