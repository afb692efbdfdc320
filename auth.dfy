/**
 * The account service: the credential validators, the order in which
 * registration checks its input, the failed-login counter with its
 * thirty-minute lock, the seven-day window in which a stored session is
 * restored, and the `currentUser` field.
 *
 * The `users` table is a map keyed by e-mail address. Password hashing,
 * device fingerprints and the `user_sessions` table are not modelled: the
 * outcome of the password comparison and of the session validation are
 * parameters. Times are epoch milliseconds.
 */
module Auth {
  import opened Wrappers
  import opened Text
  import opened RateLimiter

  // ---------------------------------------------------------------------
  // Validators
  // ---------------------------------------------------------------------

  /** A character of the class `[^\s@]`. */
  predicate EmailChar(c: char)
  {
    !IsJsSpace(c) && c != '@'
  }

  predicate AllEmailChars(s: string)
  {
    forall i :: 0 <= i < |s| ==> EmailChar(s[i])
  }

  /**
   * The regular expression `^[^\s@]+@[^\s@]+\.[^\s@]+$` read directly: a
   * non-empty local part, `@`, a non-empty label, a dot and a non-empty rest,
   * none of them holding white space or `@`.
   */
  ghost predicate EmailPattern(email: string)
  {
    exists at, dot :: 0 < at && at + 1 < dot && dot + 1 < |email| && email[at] == '@' && email[dot] == '.'
      && AllEmailChars(email[..at]) && AllEmailChars(email[at + 1..dot]) && AllEmailChars(email[dot + 1..])
  }

  /** `validateEmail`: split at the first `@`, then look for a dot strictly inside the domain. */
  function ValidateEmail(email: string): bool
  {
    match IndexOf(email, "@")
    case None => false
    case Some(at) =>
      var domain := email[at + 1..];
      at > 0 && AllEmailChars(email[..at]) && AllEmailChars(domain) && exists i :: 1 <= i < |domain| - 1 && domain[i] == '.'
  }

  lemma AllEmailCharsSlice(s: string, i: nat, j: nat)
    requires AllEmailChars(s) && i <= j <= |s|
    ensures AllEmailChars(s[i..j])
  {
    assert forall k :: 0 <= k < j - i ==> s[i..j][k] == s[i + k];
  }

  /** A one-character pattern matches exactly where that character stands. */
  lemma MatchAtChar(s: string, i: int, c: char)
    ensures MatchAt(s, i, [c]) <==> 0 <= i < |s| && s[i] == c
  {
    if 0 <= i < |s| {
      assert s[i..i + 1] == [s[i]];
    }
  }

  /** An `@` with no `@` before it is the one `indexOf` finds. */
  lemma FirstAtSign(email: string, at: nat)
    requires at < |email| && email[at] == '@' && AllEmailChars(email[..at])
    ensures IndexOf(email, "@") == Some(at)
  {
    MatchAtChar(email, at, '@');
    match IndexOf(email, "@")
    case None =>
    case Some(j) =>
      MatchAtChar(email, j, '@');
  }

  /** An address the validator accepts matches the pattern. */
  lemma ValidEmailMatches(email: string)
    requires ValidateEmail(email)
    ensures EmailPattern(email)
  {
    var at := IndexOf(email, "@").value;
    MatchAtChar(email, at, '@');
    var domain := email[at + 1..];
    var i :| 1 <= i < |domain| - 1 && domain[i] == '.';
    var dot := at + 1 + i;
    AllEmailCharsSlice(domain, 0, i);
    AllEmailCharsSlice(domain, i + 1, |domain|);
    assert email[at + 1..dot] == domain[0..i];
    assert email[dot + 1..] == domain[i + 1..];
    assert email[dot] == '.';
  }

  /** An address matching the pattern is accepted by the validator. */
  lemma MatchingEmailValid(email: string)
    requires EmailPattern(email)
    ensures ValidateEmail(email)
  {
    var at, dot :| 0 < at && at + 1 < dot && dot + 1 < |email| && email[at] == '@' && email[dot] == '.'
      && AllEmailChars(email[..at]) && AllEmailChars(email[at + 1..dot]) && AllEmailChars(email[dot + 1..]);
    FirstAtSign(email, at);
    var domain := email[at + 1..];
    forall k | 0 <= k < |domain|
      ensures EmailChar(domain[k])
    {
      if k < dot - at - 1 {
        assert domain[k] == email[at + 1..dot][k];
      } else if k > dot - at - 1 {
        assert domain[k] == email[dot + 1..][k - (dot - at)];
      }
    }
    assert domain[dot - at - 1] == '.';
  }

  /** The validator accepts exactly the addresses the pattern matches. */
  lemma ValidateEmailMatchesPattern(email: string)
    ensures ValidateEmail(email) <==> EmailPattern(email)
  {
    if ValidateEmail(email) {
      ValidEmailMatches(email);
    }
    if EmailPattern(email) {
      MatchingEmailValid(email);
    }
  }

  /** `validatePassword`: at least eight UTF-16 code units. */
  function ValidatePassword(password: string): bool
  {
    Utf16Length(password) >= 8
  }

  /** A password of eight characters or more is always accepted; one of three or fewer never is. */
  lemma ValidatePasswordBounds(password: string)
    ensures |password| >= 8 ==> ValidatePassword(password)
    ensures |password| < 4 ==> !ValidatePassword(password)
  {
  }

  /** A character of the class `[a-zA-Z0-9_]`. */
  predicate UsernameChar(c: char)
  {
    ('a' <= c <= 'z') || ('A' <= c <= 'Z') || ('0' <= c <= '9') || c == '_'
  }

  /** Every character of `s` is a word character, checked from the left. */
  function WordChars(s: string): (r: bool)
    ensures r <==> forall i :: 0 <= i < |s| ==> UsernameChar(s[i])
  {
    if s == [] then true else UsernameChar(s[0]) && WordChars(s[1..])
  }

  /** `validateUsername`: `^[a-zA-Z0-9_]{3,50}$`. */
  function ValidateUsername(username: string): (r: bool)
    ensures r <==> 3 <= |username| <= 50 && forall i :: 0 <= i < |username| ==> UsernameChar(username[i])
    ensures r ==> Utf16Length(username) == |username|
  {
    var ok := 3 <= |username| <= 50 && WordChars(username);
    if ok then
      UsernameUnits(username);
      ok
    else ok
  }

  lemma {:induction false} UsernameUnits(s: string)
    requires forall i :: 0 <= i < |s| ==> UsernameChar(s[i])
    ensures Utf16Length(s) == |s|
  {
    if s != [] {
      UsernameUnits(s[1..]);
    }
  }

  // ---------------------------------------------------------------------
  // Registration
  // ---------------------------------------------------------------------

  datatype RegisterCredentials = RegisterCredentials(username: string, email: string, password: string)

  const InvalidEmail: string := "Invalid email format"
  const ShortPassword: string := "Password must be at least 8 characters long"
  const BadUsername: string := "Username must be 3-50 characters long and contain only letters, numbers, and underscores"

  /** The first validator that rejects the credentials, in the order email, password, username. */
  function FirstInvalid(credentials: RegisterCredentials): (r: Option<string>)
    ensures r.None? <==> ValidateEmail(credentials.email) && ValidatePassword(credentials.password) && ValidateUsername(credentials.username)
    ensures !ValidateEmail(credentials.email) ==> r == Some(InvalidEmail)
    ensures ValidateEmail(credentials.email) && !ValidatePassword(credentials.password) ==> r == Some(ShortPassword)
    ensures ValidateEmail(credentials.email) && ValidatePassword(credentials.password) && !ValidateUsername(credentials.username) ==> r == Some(BadUsername)
  {
    if !ValidateEmail(credentials.email) then Some(InvalidEmail)
    else if !ValidatePassword(credentials.password) then Some(ShortPassword)
    else if !ValidateUsername(credentials.username) then Some(BadUsername)
    else None
  }

  // ---------------------------------------------------------------------
  // Accounts and the lock
  // ---------------------------------------------------------------------

  datatype UserRow = UserRow(
    id: string,
    username: string,
    email: string,
    loginAttempts: int,
    lockedUntil: Option<int>,
    lastLogin: Option<int>)

  const LockAttempts: int := 5
  const LockMs: int := 30 * 60 * 1000

  /** `locked_until` lies after now. */
  predicate IsLocked(user: UserRow, now: int)
  {
    user.lockedUntil.Some? && user.lockedUntil.value > now
  }

  /**
   * The row after a wrong password: one more attempt, and a lock for thirty
   * minutes once there are five. Below five the update carries an undefined
   * `locked_until`, which the update drops, so the old value stays.
   */
  function AfterFailure(user: UserRow, now: int): (r: UserRow)
    ensures r.loginAttempts == user.loginAttempts + 1
    ensures r.loginAttempts >= LockAttempts ==> r.lockedUntil == Some(now + LockMs)
    ensures r.loginAttempts < LockAttempts ==> r.lockedUntil == user.lockedUntil
    ensures r.id == user.id && r.email == user.email && r.username == user.username && r.lastLogin == user.lastLogin
  {
    var attempts := user.loginAttempts + 1;
    user.(loginAttempts := attempts, lockedUntil := if attempts >= LockAttempts then Some(now + LockMs) else user.lockedUntil)
  }

  /** The row after a successful login: counter and lock cleared, login time recorded. */
  function AfterSuccess(user: UserRow, now: int): (r: UserRow)
    ensures r.loginAttempts == 0 && r.lockedUntil.None? && r.lastLogin == Some(now)
    ensures !IsLocked(r, now)
    ensures r.id == user.id && r.email == user.email && r.username == user.username
  {
    user.(loginAttempts := 0, lockedUntil := None, lastLogin := Some(now))
  }

  /** The row after a run of wrong passwords at the given times. */
  function FailAt(user: UserRow, times: seq<int>): UserRow
  {
    if times == [] then user else AfterFailure(FailAt(user, times[..|times| - 1]), times[|times| - 1])
  }

  lemma {:induction false} FailAtCounts(user: UserRow, times: seq<int>)
    ensures FailAt(user, times).loginAttempts == user.loginAttempts + |times|
    ensures user.loginAttempts + |times| < LockAttempts ==> FailAt(user, times).lockedUntil == user.lockedUntil
  {
    if times != [] {
      FailAtCounts(user, times[..|times| - 1]);
    }
  }

  /**
   * From a clean account, four wrong passwords leave it unlocked and the
   * fifth locks it for thirty minutes from that attempt.
   */
  lemma FifthFailureLocks(user: UserRow, times: seq<int>)
    requires user.loginAttempts == 0 && user.lockedUntil.None?
    requires |times| == 5
    ensures FailAt(user, times[..4]).lockedUntil.None?
    ensures FailAt(user, times).loginAttempts == 5
    ensures FailAt(user, times).lockedUntil == Some(times[4] + LockMs)
    ensures forall t :: times[4] <= t < times[4] + LockMs ==> IsLocked(FailAt(user, times), t)
  {
    FailAtCounts(user, times[..4]);
    assert times[..5][..4] == times[..4];
    assert times[..5] == times;
  }

  // ---------------------------------------------------------------------
  // Sessions
  // ---------------------------------------------------------------------

  const SessionWindowMs: int := 7 * 24 * 60 * 60 * 1000

  /** What `localStorage` keeps of a session: the user and the time it was saved. */
  datatype StoredSession = StoredSession(user: UserRow, savedAt: int)

  /** A stored session is restored only while it is younger than seven days. */
  predicate WithinSessionWindow(session: StoredSession, now: int)
  {
    now - session.savedAt < SessionWindowMs
  }

  datatype AuthResponse =
    | Success(user: UserRow)
    | Failure(error: string)
    | RateLimitedResponse(error: string, resetTime: Option<int>)

  class AuthService {
    var currentUser: Option<UserRow>
    /** The `sat_current_user` and `sat_session_time` items of `localStorage`. */
    var stored: Option<StoredSession>

    /**
     * The service starts with nobody signed in and restores the session kept
     * in `localStorage` by `initializeSession`: a stored session under seven
     * days old that the server accepts signs its user in, anything else
     * leaves nobody signed in and nothing stored.
     */
    constructor(stored0: Option<StoredSession>, now: int, sessionValid: bool)
      ensures stored0.Some? && WithinSessionWindow(stored0.value, now) && sessionValid ==>
        currentUser == Some(stored0.value.user) && stored == stored0
      ensures !(stored0.Some? && WithinSessionWindow(stored0.value, now) && sessionValid) ==>
        currentUser.None? && stored.None?
    {
      currentUser := None;
      stored := stored0;
      new;
      InitializeSession(now, sessionValid);
    }

    /** `isAuthenticated`. */
    function IsAuthenticated(): (r: bool)
      reads this
      ensures r <==> currentUser.Some?
    {
      currentUser != None
    }

    /** `clearLocalSession`: the stored session is removed and nobody is signed in. */
    method ClearLocalSession()
      modifies this
      ensures currentUser.None? && stored.None?
      ensures !IsAuthenticated()
    {
      stored := None;
      currentUser := None;
    }

    /**
     * `logout`: the same, after the session row is deactivated. The
     * deactivation is not modelled, and neither is its throwing path, where
     * the source skips clearing the session.
     */
    method Logout()
      modifies this
      ensures currentUser.None? && stored.None?
      ensures !IsAuthenticated()
    {
      ClearLocalSession();
      currentUser := None;
    }

    /**
     * `initializeSession`: a stored session younger than seven days that
     * the server still holds active signs its user in; an older or rejected
     * one is cleared; without one nothing happens.
     */
    method InitializeSession(now: int, sessionValid: bool)
      modifies this
      ensures old(stored).None? ==> currentUser == old(currentUser) && stored.None?
      ensures old(stored).Some? && WithinSessionWindow(old(stored).value, now) && sessionValid ==>
        currentUser == Some(old(stored).value.user) && stored == old(stored)
      ensures old(stored).Some? && !(WithinSessionWindow(old(stored).value, now) && sessionValid) ==>
        currentUser.None? && stored.None?
    {
      if stored.Some? {
        if WithinSessionWindow(stored.value, now) {
          if sessionValid {
            currentUser := Some(stored.value.user);
          } else {
            ClearLocalSession();
          }
        } else {
          ClearLocalSession();
        }
      }
    }

    /**
     * `register`: the rate limit first, then the validators in order, then
     * the username and the address must be free; a successful insert signs
     * the new user in.
     */
    method Register(users: UserTable, limiter: RateLimitTable, clientIp: string, credentials: RegisterCredentials,
                    newId: string, now: int, rateOutage: Outage, insertError: Option<string>)
      returns (response: AuthResponse)
      requires limiter.Valid() && users.Valid()
      modifies this, users, limiter
      ensures limiter.Valid() && users.Valid()
      ensures var check := CheckSpec(old(limiter.rows), clientIp, "register", now, rateOutage);
        && limiter.rows == check.rows
        && (!check.allowed ==> response == RateLimitedResponse("Too many registration attempts. Please try again later.", check.resetTime))
        && (check.allowed && FirstInvalid(credentials).Some? ==> response == Failure(FirstInvalid(credentials).value))
        && (check.allowed && FirstInvalid(credentials).None? && old(users.UsernameTaken(credentials.username)) ==>
              response == Failure("Username already exists"))
        && (check.allowed && FirstInvalid(credentials).None? && !old(users.UsernameTaken(credentials.username)) ==>
              && (credentials.email in old(users.rows) ==> response == Failure("Email already registered"))
              && (credentials.email !in old(users.rows) && insertError.Some? ==> response == Failure(insertError.value)))
      ensures response.Success? <==>
        && CheckSpec(old(limiter.rows), clientIp, "register", now, rateOutage).allowed
        && FirstInvalid(credentials).None? && !old(users.UsernameTaken(credentials.username))
        && credentials.email !in old(users.rows) && insertError.None?
      ensures response.Success? ==>
        && response.user == UserRow(newId, credentials.username, credentials.email, 0, None, None)
        && users.rows == old(users.rows)[credentials.email := response.user]
        && currentUser == Some(response.user) && stored == Some(StoredSession(response.user, now))
      ensures !response.Success? ==> users.rows == old(users.rows) && currentUser == old(currentUser) && stored == old(stored)
    {
      var allowed, resetTime := limiter.CheckRateLimit(clientIp, "register", now, rateOutage);
      if !allowed {
        return RateLimitedResponse("Too many registration attempts. Please try again later.", resetTime);
      }
      var invalid := FirstInvalid(credentials);
      if invalid.Some? {
        return Failure(invalid.value);
      }
      if users.UsernameTaken(credentials.username) {
        return Failure("Username already exists");
      }
      if credentials.email in users.rows {
        return Failure("Email already registered");
      }
      if insertError.Some? {
        return Failure(insertError.value);
      }
      var user := UserRow(newId, credentials.username, credentials.email, 0, None, None);
      users.rows := users.rows[credentials.email := user];
      currentUser := Some(user);
      stored := Some(StoredSession(user, now));
      return Success(user);
    }

    /**
     * `login`: the rate limit first; an unknown address or a locked account
     * is rejected before the password is looked at; a wrong password counts
     * a failure; a right one clears the counter, resets the rate limit and
     * signs the user in with the row as it was read.
     */
    method Login(users: UserTable, limiter: RateLimitTable, clientIp: string, email: string, passwordValid: bool,
                 now: int, rateOutage: Outage)
      returns (response: AuthResponse)
      requires limiter.Valid() && users.Valid()
      modifies this, users, limiter
      ensures limiter.Valid() && users.Valid()
      ensures var check := CheckSpec(old(limiter.rows), clientIp, "login", now, rateOutage);
        && (!check.allowed ==>
              && response == RateLimitedResponse("Too many login attempts. Please try again later.", check.resetTime)
              && limiter.rows == check.rows)
        && (check.allowed && email !in old(users.rows) ==> response == Failure("Invalid email or password"))
        && (check.allowed && email in old(users.rows) && IsLocked(old(users.rows)[email], now) ==>
              response == Failure("Account is temporarily locked. Please try again later."))
        && (check.allowed && email in old(users.rows) && !IsLocked(old(users.rows)[email], now) && !passwordValid ==>
              response == Failure("Invalid email or password")
              && users.rows == old(users.rows)[email := AfterFailure(old(users.rows)[email], now)])
        && (check.allowed && email in old(users.rows) && !IsLocked(old(users.rows)[email], now) && passwordValid ==>
              && response == Success(old(users.rows)[email])
              && users.rows == old(users.rows)[email := AfterSuccess(old(users.rows)[email], now)]
              && limiter.rows == ResetSpec(check.rows, clientIp, "login", false)
              && currentUser == Some(old(users.rows)[email])
              && stored == Some(StoredSession(old(users.rows)[email], now)))
        && (!response.Success? ==> limiter.rows == check.rows && currentUser == old(currentUser) && stored == old(stored))
      ensures response.Success? <==>
        && CheckSpec(old(limiter.rows), clientIp, "login", now, rateOutage).allowed
        && email in old(users.rows) && !IsLocked(old(users.rows)[email], now) && passwordValid
      ensures !(response.Failure? && response.error == "Invalid email or password" && email in old(users.rows)) ==>
        forall e :: e in old(users.rows) && e != email ==> e in users.rows && users.rows[e] == old(users.rows)[e]
      ensures users.rows.Keys == old(users.rows).Keys
      ensures !(CheckSpec(old(limiter.rows), clientIp, "login", now, rateOutage).allowed
                && email in old(users.rows) && !IsLocked(old(users.rows)[email], now)) ==>
        users.rows == old(users.rows)
    {
      var allowed, resetTime := limiter.CheckRateLimit(clientIp, "login", now, rateOutage);
      if !allowed {
        return RateLimitedResponse("Too many login attempts. Please try again later.", resetTime);
      }
      if email !in users.rows {
        return Failure("Invalid email or password");
      }
      var user := users.rows[email];
      if IsLocked(user, now) {
        return Failure("Account is temporarily locked. Please try again later.");
      }
      if !passwordValid {
        users.rows := users.rows[email := AfterFailure(user, now)];
        return Failure("Invalid email or password");
      }
      users.rows := users.rows[email := AfterSuccess(user, now)];
      limiter.ResetRateLimit(clientIp, "login", false);
      currentUser := Some(user);
      stored := Some(StoredSession(user, now));
      return Success(user);
    }
  }

  /** The `users` table, keyed by e-mail address. */
  class UserTable {
    var rows: map<string, UserRow>

    ghost predicate Valid()
      reads this
    {
      forall e :: e in rows ==> rows[e].email == e
    }

    constructor()
      ensures Valid() && rows == map[]
    {
      rows := map[];
    }

    /** Some account already has this username. */
    predicate UsernameTaken(username: string)
      reads this
    {
      exists e :: e in rows && rows[e].username == username
    }
  }
}
