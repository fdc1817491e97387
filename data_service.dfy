/**
 * The account operations of the data package that carry rules: the rate
 * and capacity check made before every authenticated API request, and the validation done
 * before an account is stored. The clock, the password hash and the
 * database are parameters: the current time, whether hashing succeeds and
 * what the insert and save report.
 */
module DataService {
  import opened Wrappers
  import opened Strings
  import opened DataModels
  import opened DataHelper

  // ---------------------------------------------------------------------
  // CheckAccess.
  // ---------------------------------------------------------------------

  /**
   * The admission decision and the usage it leaves in memory, before the
   * record is saved: admins pass untouched; a user at capacity is refused;
   * a user whose last request is older than a minute starts a new window;
   * within the window a user at the rate limit is refused; otherwise the
   * window count grows. Every admitted call stamps the time and counts
   * towards the capacity.
   */
  function Admit(isAdmin: bool, u: Usage, now: int): (r: (Usage, Option<DataError>))
    ensures isAdmin ==> r == (u, None)
    ensures r.1.Some? ==> r.0 == u && (r.1 == Some(CapacityExceeded) || r.1 == Some(RateLimitExceeded))
    ensures !isAdmin && r.1.None? ==>
      r.0 == u.(rateCount := r.0.rateCount, lastRequest := now, totalRequests := u.totalRequests + 1)
      && (r.0.rateCount == 1 || r.0.rateCount == u.rateCount + 1)
  {
    if isAdmin then (u, None)
    else if u.totalRequests >= u.capacity then (u, Some(CapacityExceeded))
    else if u.lastRequest < now - Minute then
      (u.(rateCount := 1, lastRequest := now, totalRequests := u.totalRequests + 1), None)
    else if u.rateCount >= u.rateLimit then (u, Some(RateLimitExceeded))
    else (u.(rateCount := u.rateCount + 1, lastRequest := now, totalRequests := u.totalRequests + 1), None)
  }

  /**
   * What CheckAccess returns and leaves in the user record: the admission
   * decision, then, for an admitted non-admin, a database error if saving
   * the record fails. The counters stay updated in memory either way.
   */
  function Access(isAdmin: bool, u: Usage, now: int, saveOk: bool): (r: (Usage, Option<DataError>))
    ensures r.0 == Admit(isAdmin, u, now).0
    ensures r.1.Some? && r.1 != Admit(isAdmin, u, now).1 <==> !isAdmin && Admit(isAdmin, u, now).1.None? && !saveOk
    ensures r.1 == Some(Database) ==> !saveOk
    ensures Admit(isAdmin, u, now).1.Some? ==> r.1 == Admit(isAdmin, u, now).1
    ensures !isAdmin && Admit(isAdmin, u, now).1.None? ==> r.1 == (if saveOk then None else Some(Database))
  {
    var (u', err) := Admit(isAdmin, u, now);
    if isAdmin || err.Some? || saveOk then (u', err) else (u', Some(Database))
  }

  /** CheckAccess: applies the rate and capacity rules to `user` in place. */
  method CheckAccess(user: User, now: int, saveOk: bool) returns (err: Option<DataError>)
    modifies user
    ensures (user.usage, err) == Access(old(user.isAdmin), old(user.usage), now, saveOk)
    ensures user.username == old(user.username) && user.isAdmin == old(user.isAdmin)
  {
    if user.isAdmin {
      return None;
    }
    var window := now - Minute;
    if user.usage.totalRequests >= user.usage.capacity {
      return Some(CapacityExceeded);
    }
    if user.usage.lastRequest < window {
      user.usage := user.usage.(rateCount := 1);
    } else if user.usage.rateCount >= user.usage.rateLimit {
      return Some(RateLimitExceeded);
    } else {
      user.usage := user.usage.(rateCount := user.usage.rateCount + 1);
    }
    user.usage := user.usage.(lastRequest := now);
    user.usage := user.usage.(totalRequests := user.usage.totalRequests + 1);
    if !saveOk {
      return Some(Database);
    }
    return None;
  }

  /** An admin always passes, and its counters are never touched. */
  lemma AdminAlwaysPasses(u: Usage, now: int, saveOk: bool)
    ensures Access(true, u, now, saveOk) == (u, None)
  {
  }

  /**
   * A user at capacity is refused with the capacity error and no counter
   * changes, whatever the rate window says: capacity is checked first.
   */
  lemma CapacityCheckedFirst(u: Usage, now: int, saveOk: bool)
    requires u.totalRequests >= u.capacity
    ensures Access(false, u, now, saveOk) == (u, Some(CapacityExceeded))
  {
  }

  /** A request more than a minute after the last one starts a new window with a count of one. */
  lemma StaleWindowResets(u: Usage, now: int, saveOk: bool)
    requires u.totalRequests < u.capacity && u.lastRequest < now - Minute
    ensures Access(false, u, now, saveOk).0.rateCount == 1
    ensures Access(false, u, now, saveOk).1 == (if saveOk then None else Some(Database))
  {
  }

  /**
   * Within the window, a user at the rate limit is refused with no counter
   * changes, and any other user's count grows by exactly one.
   */
  lemma WindowRateLimit(u: Usage, now: int, saveOk: bool)
    requires u.totalRequests < u.capacity && now - Minute <= u.lastRequest
    ensures u.rateCount >= u.rateLimit ==> Access(false, u, now, saveOk) == (u, Some(RateLimitExceeded))
    ensures u.rateCount < u.rateLimit ==> Access(false, u, now, saveOk).0.rateCount == u.rateCount + 1
  {
  }

  /**
   * Every admitted non-admin call stamps the time, counts exactly one more
   * request, and leaves the limits alone; a refused call changes nothing.
   */
  lemma AdmittedCallsCount(u: Usage, now: int, saveOk: bool)
    ensures var (u', err) := Admit(false, u, now);
      if err.None? then
        u'.lastRequest == now && u'.totalRequests == u.totalRequests + 1
        && u'.rateLimit == u.rateLimit && u'.capacity == u.capacity
        && Access(false, u, now, saveOk).0 == u'
      else u' == u && Access(false, u, now, saveOk) == (u, err)
  {
  }

  /** The usage after a run of non-admin calls at the given times. */
  function AfterCalls(u: Usage, times: seq<int>): Usage
    decreases |times|
  {
    if times == [] then u else AfterCalls(Admit(false, u, times[0]).0, times[1..])
  }

  /** How many of a run of non-admin calls are admitted. */
  function AdmittedCount(u: Usage, times: seq<int>): nat
    decreases |times|
  {
    if times == [] then 0
    else (if Admit(false, u, times[0]).1.None? then 1 else 0) + AdmittedCount(Admit(false, u, times[0]).0, times[1..])
  }

  /** The counters a well-behaved record keeps: within the limits, which fit in a Go `int`. */
  predicate WithinLimits(u: Usage) {
    0 <= u.totalRequests <= u.capacity <= MaxInt && 0 <= u.rateCount <= u.rateLimit && 1 <= u.rateLimit <= MaxInt
  }

  /**
   * However many calls are made, the total never passes the capacity and
   * the window count never passes the rate limit, so neither counter can
   * overflow.
   */
  lemma {:induction false} LimitsPreserved(u: Usage, times: seq<int>)
    requires WithinLimits(u)
    ensures WithinLimits(AfterCalls(u, times))
    decreases |times|
  {
    if times != [] {
      var u' := Admit(false, u, times[0]).0;
      assert WithinLimits(u');
      LimitsPreserved(u', times[1..]);
    }
  }

  /** No more calls are admitted in total than the remaining capacity. */
  lemma {:induction false} CapacityBoundsAdmissions(u: Usage, times: seq<int>)
    requires u.totalRequests <= u.capacity
    ensures AdmittedCount(u, times) <= u.capacity - u.totalRequests
    ensures AfterCalls(u, times).totalRequests == u.totalRequests + AdmittedCount(u, times)
    decreases |times|
  {
    if times != [] {
      var u' := Admit(false, u, times[0]).0;
      CapacityBoundsAdmissions(u', times[1..]);
    }
  }

  /**
   * Calls made no later than a minute after the last recorded request, in
   * time order, never start a new window, so at most the rate limit minus
   * the current count of them are admitted.
   */
  lemma {:induction false} WindowBoundsAdmissions(u: Usage, times: seq<int>)
    requires forall i | 0 <= i < |times| :: u.lastRequest <= times[i] <= u.lastRequest + Minute
    requires forall i, j | 0 <= i < j < |times| :: times[i] <= times[j]
    ensures AdmittedCount(u, times) <= if u.rateCount < u.rateLimit then u.rateLimit - u.rateCount else 0
    decreases |times|
  {
    if times != [] {
      var (u', err) := Admit(false, u, times[0]);
      var rest := times[1..];
      assert forall i | 0 <= i < |rest| :: rest[i] == times[i + 1];
      assert forall i | 0 <= i < |rest| :: u'.lastRequest <= rest[i] <= u'.lastRequest + Minute by {
        forall i | 0 <= i < |rest|
          ensures u'.lastRequest <= rest[i] <= u'.lastRequest + Minute
        {
          assert times[0] <= times[i + 1];
        }
      }
      assert u'.lastRequest >= u.lastRequest;
      WindowBoundsAdmissions(u', rest);
    }
  }

  // ---------------------------------------------------------------------
  // CreateUser.
  // ---------------------------------------------------------------------

  /** What the insert inside the transaction reports: success, or the text of the driver's error. */
  datatype Insert = Inserted | InsertFailed(message: string)

  /** The text whose presence in an insert error is read as "the name is taken". */
  const UniqueConstraintText: string := "UNIQUE constraint"

  /** The stored account, without its password hash. */
  datatype Account = Account(username: string, isAdmin: bool, usage: Usage)

  /**
   * CreateUser: the username is validated first, then the password; either
   * failure is a validation error and nothing is hashed or stored. A
   * hashing failure is a database error. A failed insert whose error text
   * contains `UNIQUE constraint`, with that capitalisation, is reported as
   * a taken name; any other failed insert is a database error. The stored
   * name is the one given, untrimmed, and the counters start from the
   * configured defaults.
   */
  function CreateUser(cfg: DataConfig, username: string, password: string, isAdmin: bool, now: int,
                      hashOk: bool, insert: Insert): (r: Result<Account, DataError>)
    ensures r.Success? <==>
      ValidateUsername(cfg, username).None? && PasswordRule(cfg, password).None? && hashOk && insert.Inserted?
    ensures r.Success? ==> r.value.username == username && r.value.isAdmin == isAdmin
    ensures r == Failure(UserExists) <==>
      ValidateUsername(cfg, username).None? && PasswordRule(cfg, password).None? && hashOk
      && insert.InsertFailed? && Contains(insert.message, UniqueConstraintText)
  {
    match ValidateUsername(cfg, username)
    case Some(rule) => Failure(Validation(rule))
    case None =>
      match PasswordRule(cfg, password)
      case Some(rule) => Failure(Validation(rule))
      case None =>
        if !hashOk then Failure(Database)
        else match insert
          case Inserted => Success(Account(username, isAdmin, Usage(cfg.defaultRateLimit, 0, now, cfg.defaultCapacity, 0)))
          case InsertFailed(message) =>
            if Contains(message, UniqueConstraintText) then Failure(UserExists) else Failure(Database)
  }

  /**
   * The username is checked before the password, and a validation failure
   * is decided before hashing or storage: it does not depend on them.
   */
  lemma ValidationBeforeStorage(cfg: DataConfig, username: string, password: string, isAdmin: bool, now: int,
                                hashOk: bool, insert: Insert)
    ensures ValidateUsername(cfg, username).Some? ==>
      CreateUser(cfg, username, password, isAdmin, now, hashOk, insert) == Failure(Validation(ValidateUsername(cfg, username).value))
    ensures ValidateUsername(cfg, username).None? && PasswordRule(cfg, password).Some? ==>
      CreateUser(cfg, username, password, isAdmin, now, hashOk, insert) == Failure(Validation(PasswordRule(cfg, password).value))
    ensures (CreateUser(cfg, username, password, isAdmin, now, hashOk, insert).Failure?
      && CreateUser(cfg, username, password, isAdmin, now, hashOk, insert).error.Validation?) <==>
      (ValidateUsername(cfg, username).Some? || PasswordRule(cfg, password).Some?)
  {
  }

  /**
   * An account is stored only for a valid name and password; it keeps the
   * name as given, and starts with the default limits and zero counters.
   */
  lemma CreatedAccount(cfg: DataConfig, username: string, password: string, isAdmin: bool, now: int,
                       hashOk: bool, insert: Insert)
    requires CreateUser(cfg, username, password, isAdmin, now, hashOk, insert).Success?
    ensures !AllSpace(username)
    ensures cfg.minUsernameLen <= Utf8Len(TrimSpace(username)) <= cfg.maxUsernameLen
    ensures cfg.minPasswordLen <= Utf8Len(password) <= cfg.maxPasswordLen && Composed(password)
    ensures hashOk && insert == Inserted
    ensures CreateUser(cfg, username, password, isAdmin, now, hashOk, insert).value ==
      Account(username, isAdmin, Usage(cfg.defaultRateLimit, 0, now, cfg.defaultCapacity, 0))
  {
  }

  /**
   * With positive defaults, a new account's first access is admitted: its
   * counters start at zero, below both limits.
   */
  lemma NewAccountFirstAccess(cfg: DataConfig, username: string, password: string, isAdmin: bool, now: int,
                              hashOk: bool, insert: Insert, later: int)
    requires CreateUser(cfg, username, password, isAdmin, now, hashOk, insert).Success?
    requires cfg.defaultRateLimit >= 1 && cfg.defaultCapacity >= 1
    ensures var a := CreateUser(cfg, username, password, isAdmin, now, hashOk, insert).value;
      Admit(a.isAdmin, a.usage, later).1.None?
  {
  }

  /**
   * The taken-name test is a case-sensitive search of the driver's message:
   * a failed insert whose message has no capital `U` is a database error,
   * even when it reports a duplicate name in lower case, as "duplicate key
   * value violates unique constraint" does.
   */
  lemma TakenNameNeedsExactText(cfg: DataConfig, username: string, password: string, isAdmin: bool, now: int,
                               message: string)
    requires ValidateUsername(cfg, username).None? && PasswordRule(cfg, password).None?
    requires 'U' !in message
    ensures CreateUser(cfg, username, password, isAdmin, now, true, InsertFailed(message)) == Failure(Database)
  {
    FirstCharAbsent(message, UniqueConstraintText);
  }

  /** A pattern whose first element does not occur in `s` does not occur in `s`. */
  lemma FirstCharAbsent<T>(s: seq<T>, pat: seq<T>)
    requires pat != [] && pat[0] !in s
    ensures !Contains(s, pat)
  {
  }
}
