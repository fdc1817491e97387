/**
 * Types of the account package: its sentinel errors, the limits it is
 * configured with, and a user's usage record. Time is an integer count of
 * nanoseconds, as a `time.Time` compares.
 */
module DataModels {

  /** The account rules the validators enforce, one per error message. */
  datatype AccountRule = UsernameEmpty | UsernameLength | PasswordLength | PasswordComposition

  function RuleMessage(rule: AccountRule): (m: string)
    ensures m != ""
  {
    match rule
    case UsernameEmpty => "username cannot be empty"
    case UsernameLength => "invalid username length"
    case PasswordLength => "invalid password length"
    case PasswordComposition => "password must contain at least one " + "uppercase letter, lowercase letter, and number"
  }

  /** No two rules share a message, so a validation error's text names the rule that failed. */
  lemma RuleMessagesDistinct(r1: AccountRule, r2: AccountRule)
    ensures RuleMessage(r1) == RuleMessage(r2) ==> r1 == r2
  {
    MessageStart(r1);
    MessageStart(r2);
  }

  /** The first and ninth characters of each message, which already tell the rules apart. */
  lemma MessageStart(rule: AccountRule)
    ensures |RuleMessage(rule)| > 8
    ensures (RuleMessage(rule)[0], RuleMessage(rule)[8]) ==
      match rule
      case UsernameEmpty => ('u', ' ')
      case UsernameLength => ('i', 'u')
      case PasswordLength => ('i', 'p')
      case PasswordComposition => ('p', ' ')
  {
    match rule
    case UsernameEmpty => MessageStartOf(rule, 'u', ' ');
    case UsernameLength => MessageStartOf(rule, 'i', 'u');
    case PasswordLength => MessageStartOf(rule, 'i', 'p');
    case PasswordComposition => MessageStartOf(rule, 'p', ' ');
  }

  lemma MessageStartOf(rule: AccountRule, c0: char, c8: char)
    requires match rule
      case UsernameEmpty => (c0, c8) == ('u', ' ')
      case UsernameLength => (c0, c8) == ('i', 'u')
      case PasswordLength => (c0, c8) == ('i', 'p')
      case PasswordComposition => (c0, c8) == ('p', ' ')
    ensures |RuleMessage(rule)| > 8 && RuleMessage(rule)[0] == c0 && RuleMessage(rule)[8] == c8
  {
  }

  /**
   * The errors the account operations return. `Validation(rule)` is the
   * validation sentinel joined with the failed rule; `Database` is the
   * database sentinel joined with whatever the storage layer reported.
   */
  datatype DataError =
    | InvalidCredentials
    | UserExists
    | RateLimitExceeded
    | CapacityExceeded
    | Validation(rule: AccountRule)
    | Database
    | Unauthorized

  /** The configured limits the modelled operations read. */
  datatype DataConfig = DataConfig(
    defaultRateLimit: int,
    defaultCapacity: int,
    minUsernameLen: int,
    maxUsernameLen: int,
    minPasswordLen: int,
    maxPasswordLen: int)

  /** One minute, in nanoseconds. */
  const Minute: int := 60_000_000_000

  /** The largest value of Go's 64-bit `int`. */
  const MaxInt: int := 0x7FFF_FFFF_FFFF_FFFF

  /** A user's rate and capacity counters. */
  datatype Usage = Usage(rateLimit: int, rateCount: int, lastRequest: int, capacity: int, totalRequests: int)

  /** A user as CheckAccess sees it; the record is updated in place. */
  class User {
    var username: string
    var isAdmin: bool
    var usage: Usage

    constructor (username: string, isAdmin: bool, usage: Usage)
      ensures this.username == username && this.isAdmin == isAdmin && this.usage == usage
    {
      this.username := username;
      this.isAdmin := isAdmin;
      this.usage := usage;
    }
  }
}
