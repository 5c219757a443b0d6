/** The login lockout: after five consecutive failures every further failure locks logins for a
    doubling time. Times are nanoseconds of a non-decreasing clock. */
module Login {
  import opened Bits
  import opened Chunks

  const SECOND: int := 1_000_000_000
  const LOCK_THRESHOLD: int := 5
  const LOCK_BASE: int := 2 * SECOND
  const LOCK_MAX: int := 300 * SECOND
  const FAIL_SLEEP: int := SECOND / 2
  const SESSION_TTL: int := 30 * 24 * 3600

  datatype Outcome = Locked(remaining: int) | WrongCredentials | NoSession | Token(token: string)

  datatype Lock = Lock(failures: int, lockedUntil: int)

  /** The lock after k failures, on 64-bit integers. */
  function LockTime(k: int): int
    requires k >= LOCK_THRESHOLD
  {
    Min(Wrap(LOCK_BASE * Pow2(Min(k - LOCK_THRESHOLD, 30))), LOCK_MAX)
  }

  function Failing(lock: Lock, now: int): Lock {
    var k := lock.failures + 1;
    Lock(k, if k >= LOCK_THRESHOLD then now + LockTime(k) else lock.lockedUntil)
  }

  /** The facts a login depends on: what is typed and whether it matches, the two clock readings,
      and whether dropping the expired sessions or adding the new one fails. */
  datatype Attempt = Attempt(username: string, hashMatches: bool, t0: int, t1: int, token: string, tokenHash: string,
                             purgeFails: bool, sessionFails: bool)

  /** The manager's variables and the session table: the expiry in seconds of each token's hash. */
  datatype Account = Account(username: string, passwordHash: string, lock: Lock, sessions: map<string, int>)

  /** The sessions that are left when the expired ones have been dropped. */
  function Purged(sessions: map<string, int>, a: Attempt): map<string, int> {
    if a.purgeFails then sessions else map h | h in sessions && sessions[h] >= a.t1 / SECOND :: sessions[h]
  }

  function LoggedIn(s: Account, a: Attempt): (Account, Outcome) {
    if a.t0 < s.lock.lockedUntil then (s, Locked(s.lock.lockedUntil - a.t0))
    else if a.username != s.username || !a.hashMatches then (s.(lock := Failing(s.lock, a.t1)), WrongCredentials)
    else
      var t := s.(lock := s.lock.(failures := 0), sessions := Purged(s.sessions, a));
      if a.sessionFails then (t, NoSession)
      else (t.(sessions := t.sessions[a.tokenHash := a.t1 / SECOND + SESSION_TTL]), Token(a.token))
  }

  class Manager {
    var username: string
    var passwordHash: string
    var failures: int
    var lockedUntil: int
    var sessions: map<string, int>

    ghost function LockState(): Lock
      reads this
    {
      Lock(failures, lockedUntil)
    }

    ghost function State(): Account
      reads this
    {
      Account(username, passwordHash, LockState(), sessions)
    }

    constructor (username: string, passwordHash: string)
      ensures this.username == username && this.passwordHash == passwordHash
      ensures LockState() == Lock(0, 0) && sessions == map[]
    {
      this.username, this.passwordHash, failures, lockedUntil, sessions := username, passwordHash, 0, 0, map[];
    }

    /** New credentials do not lift a lock. */
    method UpdateCredentials(username: string, passwordHash: string)
      modifies this
      ensures this.username == username && this.passwordHash == passwordHash
      ensures LockState() == old(LockState()) && sessions == old(sessions)
    {
      this.username, this.passwordHash := username, passwordHash;
    }

    /** Removing the session of a token. */
    method Logout(tokenHash: string, fails: bool)
      modifies this
      ensures State() == if fails then old(State()) else old(State()).(sessions := old(sessions) - {tokenHash})
    {
      if !fails {
        sessions := sessions - {tokenHash};
      }
    }

    method Valid(tokenHash: string, now: int, fails: bool) returns (valid: bool)
      ensures valid <==> !fails && tokenHash in sessions && 0 < sessions[tokenHash] && now < sessions[tokenHash]
    {
      var expiry := if tokenHash in sessions then sessions[tokenHash] else 0;
      valid := !fails && expiry > 0 && now < expiry;
    }

    method Login(a: Attempt) returns (outcome: Outcome)
      requires failures >= 0 && a.t0 <= a.t1
      modifies this
      ensures (State(), outcome) == LoggedIn(old(State()), a)
      ensures username == old(username) && passwordHash == old(passwordHash)
      ensures outcome.Locked? <==> a.t0 < old(lockedUntil)
      ensures outcome.Locked? ==> outcome.remaining == lockedUntil - a.t0 > 0
      ensures outcome.Locked? ==> LockState() == old(LockState()) && sessions == old(sessions)
      ensures outcome.WrongCredentials? <==> a.t0 >= old(lockedUntil) && !(a.username == username && a.hashMatches)
      ensures outcome.WrongCredentials? ==> LockState() == Failing(old(LockState()), a.t1) && sessions == old(sessions)
      ensures outcome.Token? || outcome.NoSession? ==> LockState() == Lock(0, old(lockedUntil))
      ensures outcome.Token? ==>
                outcome.token == a.token && a.tokenHash in sessions
                    && sessions[a.tokenHash] == a.t1 / SECOND + SESSION_TTL
      ensures outcome.NoSession? <==>
                a.t0 >= old(lockedUntil) && a.username == username && a.hashMatches && a.sessionFails
      ensures outcome.Token? || outcome.NoSession? ==>
                forall h | h in old(sessions) && !(outcome.Token? && h == a.tokenHash) ::
                  && (h in sessions <==> old(sessions)[h] >= a.t1 / 1_000_000_000 || a.purgeFails)
                  && (h in sessions ==> sessions[h] == old(sessions)[h])
      ensures forall h <- sessions :: (h in old(sessions) && sessions[h] == old(sessions)[h])
                                      || (outcome.Token? && h == a.tokenHash)
    {
      hide LockTime;
      var remaining := lockedUntil - a.t0;
      if remaining > 0 {
        return Locked(remaining);
      }
      if a.username != username || !a.hashMatches {
        failures := failures + 1;
        if failures >= LOCK_THRESHOLD {
          lockedUntil := a.t1 + LockTime(failures);
        }
        return WrongCredentials;
      }
      failures := 0;
      if !a.purgeFails {
        sessions := map h | h in sessions && !(sessions[h] < a.t1 / SECOND) :: sessions[h];
      }
      assert sessions == Purged(old(sessions), a);
      if a.sessionFails {
        return NoSession;
      }
      sessions := sessions[a.tokenHash := a.t1 / SECOND + SESSION_TTL];
      outcome := Token(a.token);
    }
  }

  // ---- sessions ----

  datatype Step = Attempted(attempt: Attempt) | LoggedOut(tokenHash: string, fails: bool)

  function Next(s: Account, step: Step): Account {
    match step
    case Attempted(a) => LoggedIn(s, a).0
    case LoggedOut(h, fails) => if fails then s else s.(sessions := s.sessions - {h})
  }

  function After(s: Account, steps: seq<Step>): Account {
    if steps == [] then s else Next(After(s, steps[..|steps| - 1]), steps[|steps| - 1])
  }

  /** No step starts another session under the hash. */
  predicate OtherTokens(steps: seq<Step>, h: string) {
    forall step <- steps :: step.Attempted? ==> step.attempt.tokenHash != h
  }

  /** A session stays, with its expiry, through every run before it expires in which nobody logs it
      out, whoever else logs in or fails to. */
  lemma {:induction false} SessionLasts(s: Account, steps: seq<Step>, h: string)
    requires h in s.sessions && OtherTokens(steps, h)
    requires forall step <- steps :: step.Attempted? ==> step.attempt.t1 / SECOND <= s.sessions[h]
    requires forall step <- steps :: step.LoggedOut? && step.tokenHash == h ==> step.fails
    ensures h in After(s, steps).sessions && After(s, steps).sessions[h] == s.sessions[h]
    decreases |steps|
  {
    if steps != [] {
      var before, last := steps[..|steps| - 1], steps[|steps| - 1];
      assert last in steps && forall step <- before :: step in steps;
      SessionLasts(s, before, h);
    }
  }

  /** So the token of a successful login is good for thirty days and not a second longer. */
  lemma TokenIsGoodForThirtyDays(s: Account, a: Attempt, steps: seq<Step>, now: int)
    requires LoggedIn(s, a).1.Token? && 0 <= a.t1 && OtherTokens(steps, a.tokenHash)
    requires forall step <- steps :: step.Attempted? ==> step.attempt.t1 / SECOND <= now
    requires forall step <- steps :: step.LoggedOut? && step.tokenHash == a.tokenHash ==> step.fails
    ensures var e, last := After(LoggedIn(s, a).0, steps), a.t1 / 1_000_000_000 + 30 * 24 * 60 * 60;
            && (now < last ==> a.tokenHash in e.sessions)
            && (a.tokenHash in e.sessions ==> e.sessions[a.tokenHash] == last)
  {
    var s1 := LoggedIn(s, a).0;
    if now < a.t1 / SECOND + SESSION_TTL {
      SessionLasts(s1, steps, a.tokenHash);
    }
    NeverRenewed(s1, steps, a.tokenHash);
  }

  /** Nothing else changes an expiry or brings a session back. */
  lemma {:induction false} NeverRenewed(s: Account, steps: seq<Step>, h: string)
    requires OtherTokens(steps, h)
    ensures h in After(s, steps).sessions ==> h in s.sessions && After(s, steps).sessions[h] == s.sessions[h]
    decreases |steps|
  {
    if steps != [] {
      var before, last := steps[..|steps| - 1], steps[|steps| - 1];
      assert last in steps && forall step <- before :: step in steps;
      NeverRenewed(s, before, h);
    }
  }

  /** After a logout the token is never good again. */
  lemma LogoutIsFinal(s: Account, steps: seq<Step>, h: string)
    requires OtherTokens(steps, h)
    ensures h !in After(Next(s, LoggedOut(h, false)), steps).sessions
  {
    NeverRenewed(Next(s, LoggedOut(h, false)), steps, h);
  }

  // ---- the lock time ----

  lemma {:induction false} Pow2Doubles(a: nat, b: nat)
    requires a <= b
    ensures 0 < Pow2(a) <= Pow2(b)
    decreases b
  {
    if a < b {
      Pow2Doubles(a, b - 1);
    } else if b > 0 {
      Pow2Doubles(a - 1, b - 1);
    }
  }

  lemma Pow2Values()
    ensures Pow2(0) == 1 && Pow2(1) == 2 && Pow2(2) == 4 && Pow2(3) == 8 && Pow2(4) == 16 && Pow2(5) == 32
    ensures Pow2(6) == 64 && Pow2(7) == 128 && Pow2(8) == 256 && Pow2(30) == 0x4000_0000
  {
    assert Pow2(10) == 1024;
    assert Pow2(20) == 0x10_0000;
    assert Pow2(30) == 0x4000_0000;
  }

  /** The lock after k failures is two seconds doubled k - 5 times, at most five minutes; the
      capped shift never overflows and the cap on the shift is invisible. */
  lemma LockTimeIsCappedDoubling(k: int)
    requires k >= LOCK_THRESHOLD
    ensures LockTime(k) == Min(LOCK_BASE * Pow2(k - LOCK_THRESHOLD), LOCK_MAX)
    ensures LOCK_BASE * Pow2(Min(k - LOCK_THRESHOLD, 30)) < INT64_LIMIT
  {
    hide Pow2;
    var shift := k - LOCK_THRESHOLD;
    Pow2Values();
    if shift <= 30 {
      Pow2Doubles(0, shift);
      Pow2Doubles(shift, 30);
    } else {
      Pow2Doubles(30, shift);
    }
  }

  /** More failures never mean a shorter lock. */
  lemma LockTimeGrows(j: int, k: int)
    requires LOCK_THRESHOLD <= j <= k
    ensures LOCK_BASE <= LockTime(j) <= LockTime(k) <= LOCK_MAX
  {
    hide LockTime, Pow2;
    LockTimeIsCappedDoubling(j);
    LockTimeIsCappedDoubling(k);
    Pow2Values();
    Pow2Doubles(0, j - LOCK_THRESHOLD);
    Pow2Doubles(j - LOCK_THRESHOLD, k - LOCK_THRESHOLD);
  }

  // ---- runs of failing attempts ----

  /** The lock, and the time before which no attempt can start because the mutex is held. */
  datatype Trace = Trace(lock: Lock, free: int)

  /** A wrong guess: rejected unchecked while locked, otherwise checked, counted, and answered
      after the sleep. */
  datatype Guess = Guess(t0: int, t1: int)

  predicate Checked(tr: Trace, g: Guess) {
    g.t0 >= tr.lock.lockedUntil
  }

  function AfterGuess(tr: Trace, g: Guess): Trace {
    if Checked(tr, g) then Trace(Failing(tr.lock, g.t1), g.t1 + FAIL_SLEEP) else Trace(tr.lock, g.t0)
  }

  function AfterGuesses(tr: Trace, guesses: seq<Guess>): Trace {
    if guesses == [] then tr else AfterGuess(AfterGuesses(tr, guesses[..|guesses| - 1]), guesses[|guesses| - 1])
  }

  /** The clock never runs backwards and attempts wait for the mutex. */
  predicate Timed(tr: Trace, guesses: seq<Guess>) {
    guesses == [] ||
    (var g, before := guesses[|guesses| - 1], guesses[..|guesses| - 1];
     Timed(tr, before) && AfterGuesses(tr, before).free <= g.t0 <= g.t1)
  }

  /** The guesses that were really checked. */
  function ChecksOf(tr: Trace, guesses: seq<Guess>): seq<Guess> {
    if guesses == [] then []
    else
      var g, before := guesses[|guesses| - 1], guesses[..|guesses| - 1];
      ChecksOf(tr, before) + (if Checked(AfterGuesses(tr, before), g) then [g] else [])
  }

  /** These guesses are the logins with wrong credentials: the same lock, and locked out exactly when
      unchecked. */
  lemma {:induction false} GuessesAreLogins(s: Account, free: int, steps: seq<Step>, a: Attempt)
    requires forall step <- steps :: step.Attempted?
                                     && (step.attempt.username != s.username || !step.attempt.hashMatches)
    ensures var tr := AfterGuesses(Trace(s.lock, free), GuessesOf(steps));
            && After(s, steps) == s.(lock := tr.lock)
            && (LoggedIn(After(s, steps), a).1.Locked? <==> !Checked(tr, Guess(a.t0, a.t1)))
    decreases |steps|
  {
    hide LockTime;
    if steps != [] {
      var before, last := steps[..|steps| - 1], steps[|steps| - 1];
      assert last in steps && forall step <- before :: step in steps;
      GuessesAreLogins(s, free, before, a);
      assert GuessesOf(steps)[..|steps| - 1] == GuessesOf(before);
    }
  }

  function GuessesOf(steps: seq<Step>): seq<Guess>
    requires forall step <- steps :: step.Attempted?
  {
    seq(|steps|, i requires 0 <= i < |steps| =>
      (assert steps[i] in steps; Guess(steps[i].attempt.t0, steps[i].attempt.t1)))
  }

  /** The least time between check m and check m + 1 of a run. */
  function Gap(m: nat): int {
    if m < LOCK_THRESHOLD then FAIL_SLEEP else LockTime(m)
  }

  function Gaps(m: nat): int {
    if m == 0 then 0 else Gaps(m - 1) + Gap(m)
  }

  ghost predicate Paced(tr: Trace, guesses: seq<Guess>) {
    var checks, now := ChecksOf(tr, guesses), AfterGuesses(tr, guesses);
    && now.lock.failures == tr.lock.failures + |checks|
    && (checks != [] ==>
          && checks[0].t1 + Gaps(|checks| - 1) <= checks[|checks| - 1].t1
          && checks[|checks| - 1].t1 + FAIL_SLEEP <= now.free
          && (now.lock.failures >= LOCK_THRESHOLD ==>
                now.lock.lockedUntil == checks[|checks| - 1].t1 + LockTime(now.lock.failures))
          && (|checks| > 1 ==> checks[0].t1 + Gaps(|checks| - 1) <= checks[|checks| - 1].t0))
  }

  lemma NextGap(tr: Trace, now: Trace, m: nat, g: Guess, last: Guess)
    requires m > 0 && now.lock.failures >= m && now.free <= g.t0 && Checked(now, g)
    requires last.t1 + FAIL_SLEEP <= now.free
    requires now.lock.failures >= LOCK_THRESHOLD ==> now.lock.lockedUntil == last.t1 + LockTime(now.lock.failures)
    ensures last.t1 + Gap(m) <= g.t0
  {
    hide LockTime;
    if m >= LOCK_THRESHOLD {
      LockTimeGrows(m, now.lock.failures);
    }
  }

  lemma {:induction false} GuessesArePaced(tr: Trace, guesses: seq<Guess>)
    requires tr.lock.failures >= 0 && Timed(tr, guesses)
    ensures Paced(tr, guesses)
    decreases |guesses|
  {
    hide LockTime, Gap;
    if guesses != [] {
      var g, before := guesses[|guesses| - 1], guesses[..|guesses| - 1];
      GuessesArePaced(tr, before);
      var checks, now := ChecksOf(tr, before), AfterGuesses(tr, before);
      if Checked(now, g) && checks != [] {
        NextGap(tr, now, |checks|, g, checks[|checks| - 1]);
      }
    }
  }

  lemma TwelveGaps()
    ensures Gaps(12) == 512 * SECOND && Gap(13) == 300 * SECOND
  {
    hide LockTime;
    Pow2Values();
    forall k: int | 5 <= k <= 13 ensures LockTime(k) == Min(LOCK_BASE * Pow2(k - 5), LOCK_MAX) {
      LockTimeIsCappedDoubling(k);
    }
    assert Gap(5) == 2 * SECOND && Gap(6) == 4 * SECOND && Gap(7) == 8 * SECOND && Gap(8) == 16 * SECOND;
    assert Gap(9) == 32 * SECOND && Gap(10) == 64 * SECOND && Gap(11) == 128 * SECOND && Gap(12) == 256 * SECOND;
    assert Gaps(4) == 2 * SECOND;
    assert Gaps(8) == 32 * SECOND;
  }

  lemma {:induction false} GapsClosedForm(m: nat)
    requires m >= 12
    ensures Gaps(m) == 512 * SECOND + 300 * SECOND * (m - 12)
    decreases m
  {
    hide LockTime;
    TwelveGaps();
    if m > 12 {
      GapsClosedForm(m - 1);
      LockTimeGrows(13, m);
    }
  }

  /** From any state, n >= 13 consecutive failed checks take at least 512 + 300 (n - 13) seconds
      from the first to the last, whatever locked-out attempts come in between. */
  lemma GuessingIsSlow(tr: Trace, guesses: seq<Guess>)
    requires tr.lock.failures >= 0 && Timed(tr, guesses) && |ChecksOf(tr, guesses)| >= 13
    ensures var checks := ChecksOf(tr, guesses);
            checks[|checks| - 1].t0 - checks[0].t1 >= 512 * SECOND + 300 * SECOND * (|checks| - 13)
  {
    GuessesArePaced(tr, guesses);
    GapsClosedForm(|ChecksOf(tr, guesses)| - 1);
  }

  /** Attempts made while locked change neither the lock nor what later attempts find. */
  lemma {:induction false} LockedGuessesChangeNothing(tr: Trace, guesses: seq<Guess>)
    requires forall g <- guesses :: g.t0 < tr.lock.lockedUntil
    ensures AfterGuesses(tr, guesses).lock == tr.lock && ChecksOf(tr, guesses) == []
    decreases |guesses|
  {
    if guesses != [] {
      LockedGuessesChangeNothing(tr, guesses[..|guesses| - 1]);
      assert guesses[|guesses| - 1] in guesses;
    }
  }
}
