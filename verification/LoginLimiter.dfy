/**
  The sliding-window limiter of login: LoginRateLimiter and the loop of LoginSystem::run that
  drives it.  The clock and the answer of authenticate_user are inputs.
*/
module LoginLimiter {

  const MAX_ATTEMPTS := 5
  /** LOCKOUT_DURATION, fifteen minutes in nanoseconds. */
  const LOCKOUT := 900_000_000_000

  type Times = seq<int>
  type Attempts = map<string, Times>

  /** What authenticate_user would do: throw, accept or deny. */
  datatype Answer = Throws | Accepts | Denies

  /**
    One turn of the login loop: who tries, the clock at the check, what authentication answers
    if it is asked, and the clock when a failure is recorded.
  */
  datatype Turn = Turn(user: string, now: int, answer: Answer, later: int)

  /** operator[] of the map: an absent user has no failures. */
  function Get(m: Attempts, user: string): (times: Times) {
    if user in m then m[user] else []
  }

  /** The times that are not more than the lockout before now, in order. */
  function Recent(times: Times, now: int): (kept: Times) {
    if times == [] then []
    else
      var n := |times| - 1;
      if now - times[n] > LOCKOUT then Recent(times[..n], now) else Recent(times[..n], now) + [times[n]]
  }

  /** One turn on the limiter's map. */
  function Step(m: Attempts, t: Turn): (m': Attempts) {
    var kept := Recent(Get(m, t.user), t.now);
    var pruned := m[t.user := kept];
    if |kept| >= MAX_ATTEMPTS then pruned
    else
      match t.answer
      case Throws => pruned
      case Accepts => pruned - {t.user}
      case Denies => pruned[t.user := kept + [t.later]]
  }

  function Allowed(m: Attempts, t: Turn): (ok: bool) {
    |Recent(Get(m, t.user), t.now)| < MAX_ATTEMPTS
  }

  /** What a turn adds to, or takes from, the failures recorded since the user's last reset. */
  function Note(r: Attempts, allowed: bool, t: Turn): (r': Attempts) {
    if !allowed then r
    else
      match t.answer
      case Throws => r
      case Accepts => r - {t.user}
      case Denies => r[t.user := Get(r, t.user) + [t.later]]
  }

  // ---------------------------------------------------------------------------------
  // The limiter and the loop
  // ---------------------------------------------------------------------------------

  class RateLimiter {
    var failedAttempts: Attempts
    // Every failure recorded for a user since the last reset, whatever has been pruned.
    ghost var recorded: Attempts

    constructor ()
      ensures failedAttempts == map[] && recorded == map[]
    {
      failedAttempts, recorded := map[], map[];
    }

    /** is_allowed. */
    method IsAllowed(user: string, now: int) returns (ok: bool)
      modifies this`failedAttempts
      ensures failedAttempts == old(failedAttempts)[user := Recent(Get(old(failedAttempts), user), now)]
      ensures ok <==> |Get(failedAttempts, user)| < MAX_ATTEMPTS
    {
      var attempts := Get(failedAttempts, user);
      var kept := [];
      for i := 0 to |attempts|
        invariant kept == Recent(attempts[..i], now)
        invariant failedAttempts == old(failedAttempts)
      {
        assert attempts[..i + 1][..i] == attempts[..i];
        if !(now - attempts[i] > LOCKOUT) {
          kept := kept + [attempts[i]];
        }
      }
      assert attempts[..|attempts|] == attempts;
      failedAttempts := failedAttempts[user := kept];
      ok := |kept| < MAX_ATTEMPTS;
    }

    /** record_failure. */
    method RecordFailure(user: string, now: int)
      modifies this
      ensures failedAttempts == old(failedAttempts)[user := Get(old(failedAttempts), user) + [now]]
      ensures recorded == old(recorded)[user := Get(old(recorded), user) + [now]]
    {
      failedAttempts := failedAttempts[user := Get(failedAttempts, user) + [now]];
      recorded := recorded[user := Get(recorded, user) + [now]];
    }

    /** reset_failures. */
    method ResetFailures(user: string)
      modifies this
      ensures failedAttempts == old(failedAttempts) - {user}
      ensures recorded == old(recorded) - {user}
    {
      failedAttempts := failedAttempts - {user};
      recorded := recorded - {user};
    }

    /** The body of the login loop; `done` when a session starts. */
    method HandleTurn(t: Turn) returns (allowed: bool, done: bool)
      modifies this
      ensures failedAttempts == Step(old(failedAttempts), t)
      ensures allowed == Allowed(old(failedAttempts), t)
      ensures recorded == Note(old(recorded), allowed, t)
      ensures done <==> allowed && t.answer.Accepts?
    {
      done := false;
      allowed := IsAllowed(t.user, t.now);
      if !allowed {
        return;
      }
      match t.answer
      case Throws =>
      case Accepts =>
        ResetFailures(t.user);
        done := true;
      case Denies =>
        RecordFailure(t.user, t.later);
    }

    /** The login loop over the turns that come in, up to the first session. */
    method Loop(turns: seq<Turn>) returns (answers: seq<bool>)
      modifies this
      ensures |answers| <= |turns|
      ensures failedAttempts == Run(old(failedAttempts), turns[..|answers|])
      ensures answers == Answers(old(failedAttempts), turns[..|answers|])
      ensures recorded == Recorded(old(failedAttempts), old(recorded), turns[..|answers|])
      ensures |answers| < |turns| ==>
        |answers| > 0 && answers[|answers| - 1] && turns[|answers| - 1].answer.Accepts?
    {
      answers := [];
      for i := 0 to |turns|
        invariant |answers| == i
        invariant failedAttempts == Run(old(failedAttempts), turns[..i])
        invariant answers == Answers(old(failedAttempts), turns[..i])
        invariant recorded == Recorded(old(failedAttempts), old(recorded), turns[..i])
      {
        OneMore(old(failedAttempts), old(recorded), turns, i);
        var allowed, done := HandleTurn(turns[i]);
        answers := answers + [allowed];
        if done {
          return;
        }
      }
    }
  }

  /** The answers of is_allowed over a run. */
  function Answers(m: Attempts, turns: seq<Turn>): (answers: seq<bool>)
    ensures |answers| == |turns|
    decreases |turns|
  {
    if turns == [] then []
    else
      var n := |turns| - 1;
      Answers(m, turns[..n]) + [Allowed(Run(m, turns[..n]), turns[n])]
  }

  function Run(m: Attempts, turns: seq<Turn>): (m': Attempts)
    decreases |turns|
  {
    if turns == [] then m
    else
      var n := |turns| - 1;
      Step(Run(m, turns[..n]), turns[n])
  }

  /** The failures that the limiter's own answers let be recorded over a run. */
  function Recorded(m: Attempts, r: Attempts, turns: seq<Turn>): (r': Attempts)
    decreases |turns|
  {
    if turns == [] then r
    else
      var n := |turns| - 1;
      Note(Recorded(m, r, turns[..n]), Allowed(Run(m, turns[..n]), turns[n]), turns[n])
  }

  lemma OneMore(m: Attempts, r: Attempts, turns: seq<Turn>, i: nat)
    requires i < |turns|
    ensures Recorded(m, r, turns[..i + 1]) ==
            Note(Recorded(m, r, turns[..i]), Allowed(Run(m, turns[..i]), turns[i]), turns[i])
    ensures Run(m, turns[..i + 1]) == Step(Run(m, turns[..i]), turns[i])
    ensures Answers(m, turns[..i + 1]) == Answers(m, turns[..i]) + [Allowed(Run(m, turns[..i]), turns[i])]
  {
    assert turns[..i + 1][..i] == turns[..i];
  }

  // ---------------------------------------------------------------------------------
  // The reference: a limiter that forgets nothing
  // ---------------------------------------------------------------------------------

  /** A turn of a limiter that decides with all failures since the user's last reset. */
  function FullStep(h: Attempts, t: Turn): (h': Attempts) {
    Note(h, Allowed(h, t), t)
  }

  function History(turns: seq<Turn>): (h: Attempts)
    decreases |turns|
  {
    if turns == [] then map[]
    else
      var n := |turns| - 1;
      FullStep(History(turns[..n]), turns[n])
  }

  /** The clock never goes back, over the whole run. */
  predicate Monotone(turns: seq<Turn>) {
    && (forall k :: 0 <= k < |turns| ==> turns[k].now <= turns[k].later)
    && (forall k :: 0 < k < |turns| ==> turns[k - 1].later <= turns[k].now)
  }

  /** The clock after a run; any value before the first turn. */
  ghost predicate Reached(turns: seq<Turn>, clock: int) {
    |turns| > 0 ==> turns[|turns| - 1].later <= clock
  }

  /** The pruned and the full map cannot be told apart from now on. */
  ghost predicate Agree(m: Attempts, h: Attempts, clock: int) {
    forall user, now :: clock <= now ==> Recent(Get(m, user), now) == Recent(Get(h, user), now)
  }

  lemma {:induction false} RecentAgain(times: Times, now: int, later: int)
    requires now <= later
    ensures Recent(Recent(times, now), later) == Recent(times, later)
  {
    if times != [] {
      var n := |times| - 1;
      RecentAgain(times[..n], now, later);
      if !(now - times[n] > LOCKOUT) {
        RecentLast(Recent(times[..n], now), times[n], later);
      }
    }
  }

  lemma RecentLast(times: Times, t: int, now: int)
    ensures Recent(times + [t], now) == Recent(times, now) + (if now - t > LOCKOUT then [] else [t])
  {
    assert (times + [t])[..|times|] == times;
  }

  /** A turn on the failures of the user who tries. */
  function UserStep(times: Times, t: Turn): (times': Times) {
    var kept := Recent(times, t.now);
    if |kept| < MAX_ATTEMPTS then
      match t.answer case Throws => kept case Accepts => [] case Denies => kept + [t.later]
    else kept
  }

  function FullUserStep(times: Times, t: Turn): (times': Times) {
    if |Recent(times, t.now)| < MAX_ATTEMPTS then
      match t.answer case Throws => times case Accepts => [] case Denies => times + [t.later]
    else times
  }

  /** A turn touches nobody but its user. */
  lemma StepIsPerUser(m: Attempts, t: Turn, user: string)
    ensures Get(Step(m, t), user) == if user == t.user then UserStep(Get(m, user), t) else Get(m, user)
    ensures Get(FullStep(m, t), user) == if user == t.user then FullUserStep(Get(m, user), t) else Get(m, user)
  {}

  lemma UserStepAgrees(a: Times, b: Times, t: Turn, now: int)
    requires t.now <= t.later <= now
    requires Recent(a, t.now) == Recent(b, t.now) && Recent(a, now) == Recent(b, now)
    ensures Recent(UserStep(a, t), now) == Recent(FullUserStep(b, t), now)
  {
    RecentAgain(a, t.now, now);
    RecentLast(Recent(a, t.now), t.later, now);
    RecentLast(b, t.later, now);
  }

  lemma StepAgrees(m: Attempts, h: Attempts, t: Turn, clock: int)
    requires clock <= t.now <= t.later
    requires Agree(m, h, clock)
    ensures Allowed(m, t) == Allowed(h, t)
    ensures Agree(Step(m, t), FullStep(h, t), t.later)
  {
    forall user, now | t.later <= now
      ensures Recent(Get(Step(m, t), user), now) == Recent(Get(FullStep(h, t), user), now)
    {
      StepIsPerUser(m, t, user);
      StepIsPerUser(h, t, user);
      if user == t.user {
        UserStepAgrees(Get(m, user), Get(h, user), t, now);
      }
    }
  }

  lemma {:induction false} RunAgrees(turns: seq<Turn>, clock: int)
    requires Monotone(turns) && Reached(turns, clock)
    ensures Agree(Run(map[], turns), History(turns), clock)
    decreases |turns|
  {
    if turns != [] {
      var n := |turns| - 1;
      RunAgrees(turns[..n], turns[n].now);
      StepAgrees(Run(map[], turns[..n]), History(turns[..n]), turns[n], turns[n].now);
    }
  }

  /** Forgetting old failures never changes an answer of is_allowed. */
  lemma PruningIsInvisible(turns: seq<Turn>, k: nat)
    requires Monotone(turns) && k < |turns|
    ensures Allowed(Run(map[], turns[..k]), turns[k]) == Allowed(History(turns[..k]), turns[k])
  {
    RunAgrees(turns[..k], turns[k].now);
    StepAgrees(Run(map[], turns[..k]), History(turns[..k]), turns[k], turns[k].now);
  }

  // ---------------------------------------------------------------------------------
  // The bound
  // ---------------------------------------------------------------------------------

  /** In order, not after the clock, and any six in a row take longer than the lockout. */
  ghost predicate Spread(times: Times, clock: int) {
    && (forall i, j :: 0 <= i < j < |times| ==> times[i] <= times[j])
    && (forall i :: 0 <= i < |times| ==> times[i] <= clock)
    && (forall i {:trigger times[i]} :: 0 <= i && i + MAX_ATTEMPTS < |times| ==>
          times[i + MAX_ATTEMPTS] - times[i] > LOCKOUT)
  }

  /** If the k last times are all recent, at least k are. */
  lemma {:induction false} RecentCount(times: Times, now: int, k: nat)
    requires k <= |times|
    requires forall i :: |times| - k <= i < |times| ==> now - times[i] <= LOCKOUT
    ensures |Recent(times, now)| >= k
    decreases k
  {
    if k > 0 {
      RecentCount(times[..|times| - 1], now, k - 1);
    }
  }

  lemma RecordKeepsSpread(times: Times, now: int, later: int)
    requires Spread(times, now) && now <= later
    requires |Recent(times, now)| < MAX_ATTEMPTS
    ensures Spread(times + [later], later)
  {
    var n := |times|;
    if n >= MAX_ATTEMPTS {
      if now - times[n - MAX_ATTEMPTS] <= LOCKOUT {
        RecentCount(times, now, MAX_ATTEMPTS);
      }
    }
  }

  lemma {:induction false} HistoryIsSpread(turns: seq<Turn>, clock: int, user: string)
    requires Monotone(turns) && Reached(turns, clock)
    ensures Spread(Get(History(turns), user), clock)
    decreases |turns|
  {
    if turns != [] {
      var n := |turns| - 1;
      var h := History(turns[..n]);
      HistoryIsSpread(turns[..n], turns[n].now, user);
      FullStepKeepsSpread(h, turns[n], user);
      SpreadLater(Get(FullStep(h, turns[n]), user), turns[n].later, clock);
    }
  }

  lemma FullStepKeepsSpread(h: Attempts, t: Turn, user: string)
    requires Spread(Get(h, user), t.now) && t.now <= t.later
    ensures Spread(Get(FullStep(h, t), user), t.later)
  {
    StepIsPerUser(h, t, user);
    if user == t.user {
      UserStepKeepsSpread(Get(h, user), t);
    } else {
      SpreadLater(Get(h, user), t.now, t.later);
    }
  }

  lemma SpreadLater(times: Times, clock: int, later: int)
    requires Spread(times, clock) && clock <= later
    ensures Spread(times, later)
  {}

  lemma UserStepKeepsSpread(times: Times, t: Turn)
    requires Spread(times, t.now) && t.now <= t.later
    ensures Spread(FullUserStep(times, t), t.later)
  {
    if |Recent(times, t.now)| < MAX_ATTEMPTS {
      RecordKeepsSpread(times, t.now, t.later);
    }
  }

  /** The times inside the closed window of one lockout that begins at a. */
  function Window(times: Times, a: int): (inside: Times) {
    if times == [] then []
    else
      var n := |times| - 1;
      if a <= times[n] <= a + LOCKOUT then Window(times[..n], a) + [times[n]] else Window(times[..n], a)
  }

  lemma {:induction false} WindowTail(times: Times, a: int, k: nat)
    requires forall i :: 0 <= i < |times| - k ==> times[i] < a
    ensures |Window(times, a)| <= k
    decreases |times|
  {
    if times != [] {
      var n := |times| - 1;
      WindowTail(times[..n], a, if k == 0 then 0 else k - 1);
    }
  }

  lemma {:induction false} SpreadWindow(times: Times, a: int, clock: int)
    requires Spread(times, clock)
    ensures |Window(times, a)| <= MAX_ATTEMPTS
    decreases |times|
  {
    if times != [] {
      var n := |times| - 1;
      if a <= times[n] <= a + LOCKOUT {
        forall i | 0 <= i < |times| - MAX_ATTEMPTS
          ensures times[i] < a
        {
          assert times[i + MAX_ATTEMPTS] - times[i] > LOCKOUT && times[i + MAX_ATTEMPTS] <= times[n];
        }
        WindowTail(times, a, MAX_ATTEMPTS);
      } else {
        SpreadWindow(times[..n], a, clock);
      }
    }
  }

  /** The failures the limiter records are those of the limiter that forgets nothing. */
  lemma {:induction false} RecordedIsHistory(turns: seq<Turn>)
    requires Monotone(turns)
    ensures Recorded(map[], map[], turns) == History(turns)
    decreases |turns|
  {
    if turns != [] {
      var n := |turns| - 1;
      RecordedIsHistory(turns[..n]);
      PruningIsInvisible(turns, n);
      SameNote(turns, History(turns[..n]), Allowed(History(turns[..n]), turns[n]));
    }
  }

  lemma SameNote(turns: seq<Turn>, h: Attempts, allowed: bool)
    requires var n := |turns| - 1;
             && turns != []
             && Recorded(map[], map[], turns[..n]) == h == History(turns[..n])
             && Allowed(Run(map[], turns[..n]), turns[n]) == allowed == Allowed(h, turns[n])
    ensures Recorded(map[], map[], turns) == History(turns)
  {}

  /** No closed window of fifteen minutes holds more than five recorded failures of a user since the last reset. */
  lemma AtMostFiveInAnyWindow(turns: seq<Turn>, user: string, a: int)
    requires Monotone(turns)
    ensures |Window(Get(Recorded(map[], map[], turns), user), a)| <= 5
  {
    var clock := if turns == [] then 0 else turns[|turns| - 1].later;
    RecordedIsHistory(turns);
    HistoryIsSpread(turns, clock, user);
    SpreadWindow(Get(History(turns), user), a, clock);
  }

  // ---------------------------------------------------------------------------------
  // When a user is allowed
  // ---------------------------------------------------------------------------------

  /** The failures of the last fifteen minutes, by their place in the list. */
  ghost function LastQuarter(times: Times, now: int): (places: set<int>) {
    set i | 0 <= i < |times| && now - times[i] <= 15 * 60 * 1_000_000_000
  }

  lemma {:induction false} RecentCounts(times: Times, now: int)
    ensures |Recent(times, now)| == |LastQuarter(times, now)|
    decreases |times|
  {
    if times != [] {
      var n := |times| - 1;
      RecentCounts(times[..n], now);
      var before := LastQuarter(times[..n], now);
      assert n !in before;
      assert LastQuarter(times, now) == if now - times[n] > LOCKOUT then before else before + {n};
    }
  }

  /**
    A user is allowed exactly if fewer than five failures have been recorded for them in the last
    fifteen minutes, since their last reset.
  */
  lemma AllowedIff(turns: seq<Turn>, k: nat)
    requires Monotone(turns) && k < |turns|
    ensures Allowed(Run(map[], turns[..k]), turns[k]) <==>
            |LastQuarter(Get(Recorded(map[], map[], turns[..k]), turns[k].user), turns[k].now)| < 5
  {
    PruningIsInvisible(turns, k);
    RecordedIsHistory(turns[..k]);
    RecentCounts(Get(History(turns[..k]), turns[k].user), turns[k].now);
  }

  /**
    What each turn records: a denial that was allowed adds its time for its user, a session forgets
    all of the user's failures, and nothing else changes anything.
  */
  lemma TurnsRecord(turns: seq<Turn>, k: nat, user: string)
    requires k < |turns|
    ensures var t := turns[k];
            var allowed := Allowed(Run(map[], turns[..k]), t);
            var before := Get(Recorded(map[], map[], turns[..k]), user);
            Get(Recorded(map[], map[], turns[..k + 1]), user) ==
            if user == t.user && allowed && t.answer.Accepts? then []
            else if user == t.user && allowed && t.answer.Denies? then before + [t.later]
            else before
  {
    OneMore(map[], map[], turns, k);
  }
}
