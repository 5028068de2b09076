/**
 * The records of the pastebin (users, pastes and the forms that create them)
 * and the expiration policy: parsing a short token such as "30m" and turning
 * it into an absolute expiry time. Timestamps are whole seconds.
 */
module Models {
  import opened Wrappers
  import Text

  datatype User = User(id: int, username: string, passwordHash: string, createdAt: int)

  datatype RegisterForm = RegisterForm(username: string, password: string, confirmPassword: string)

  datatype LoginForm = LoginForm(username: string, password: string)

  /** One row of the `pastes` table; `userId == None` marks an anonymous paste. */
  datatype Paste = Paste(
    id: string,
    content: string,
    language: Option<string>,
    passwordHash: Option<string>,
    expiresAt: Option<int>,
    createdAt: int,
    viewCount: nat,
    userId: Option<int>)

  datatype CreatePasteForm = CreatePasteForm(
    content: string,
    language: Option<string>,
    password: Option<string>,
    expiration: Option<string>)

  datatype PasswordForm = PasswordForm(password: string)

  datatype Expiration = Never | Minutes(n: int) | Hours(n: int) | Days(n: int)

  /**
   * A token whose last byte can be split off: it is empty or ends in an ASCII
   * character. Splitting a token that ends in a multi-byte character panics.
   */
  predicate SplittableToken(s: string) {
    |s| == 0 || Text.IsAscii(s[|s| - 1])
  }

  /**
   * `Expiration::from_str`: the last character picks the unit and the rest is
   * read as a signed `i64`, where anything unparseable counts as 0. It never fails.
   */
  function FromStr(s: string): (e: Expiration)
    requires SplittableToken(s)
    ensures !e.Never? ==> Text.I64Min <= e.n <= Text.I64Max
  {
    if s == "" || s == "never" then Never
    else if Text.Utf8Len(s) < 2 then Never
    else
      var num := Text.ParseI64(s[..|s| - 1]).GetOr(0);
      match s[|s| - 1]
      case 'm' => Minutes(num)
      case 'h' => Hours(num)
      case 'd' => Days(num)
      case _ => Never
  }

  /**
   * The length of the duration an expiration stands for, in seconds: chrono's
   * minute, hour and day are 60, 3600 and 86400 seconds.
   */
  function DurationSeconds(e: Expiration): (d: int)
    ensures e.Never? ==> d == 0
    ensures !e.Never? ==> (d > 0 <==> e.n > 0) && (d < 0 <==> e.n < 0)
    ensures e.Minutes? ==> d == 60 * e.n
    ensures e.Hours? ==> d == 3600 * e.n
    ensures e.Days? ==> d == 86400 * e.n
  {
    match e
    case Never => 0
    case Minutes(n) => n * 60
    case Hours(n) => n * 3600
    case Days(n) => n * 86400
  }

  /** The largest duration chrono accepts, in whole seconds (`i64::MAX` milliseconds). */
  const MaxDurationSeconds: int := Text.I64Max / 1000

  /** Durations beyond this make chrono's `Duration` constructors panic. */
  predicate DurationInRange(e: Expiration) {
    -MaxDurationSeconds <= DurationSeconds(e) <= MaxDurationSeconds
  }

  /**
   * `Expiration::to_datetime`, with the clock reading `now` passed in: no expiry
   * for `Never`, otherwise `now` moved by the duration.
   */
  function ToDateTime(e: Expiration, now: int): (t: Option<int>)
    requires DurationInRange(e)
    ensures t.None? <==> e.Never?
    ensures e.Minutes? ==> t == Some(now + 60 * e.n)
    ensures e.Hours? ==> t == Some(now + 3600 * e.n)
    ensures e.Days? ==> t == Some(now + 86400 * e.n)
  {
    match e
    case Never => None
    case _ => Some(now + DurationSeconds(e))
  }

  /** Under `SplittableToken`, comparing the byte length with 2 is comparing the length in characters. */
  lemma ByteLengthOfToken(s: string)
    requires SplittableToken(s)
    ensures Text.Utf8Len(s) < 2 <==> |s| < 2
  {
  }

  /** A token means `Never` exactly when it is shorter than two characters or ends in no unit letter. */
  lemma FromStrNever(s: string)
    requires SplittableToken(s)
    ensures FromStr(s).Never? <==> |s| < 2 || s[|s| - 1] !in "mhd"
  {
  }

  /** The last character alone picks the variant; the prefix only gives its magnitude, 0 when it does not parse. */
  lemma FromStrUnit(s: string)
    requires SplittableToken(s) && |s| >= 2
    ensures var num := Text.ParseI64(s[..|s| - 1]).GetOr(0);
      && (s[|s| - 1] == 'm' ==> FromStr(s) == Minutes(num))
      && (s[|s| - 1] == 'h' ==> FromStr(s) == Hours(num))
      && (s[|s| - 1] == 'd' ==> FromStr(s) == Days(num))
  {
  }

  /**
   * A non-empty prefix followed by a unit letter: the letter picks the unit
   * and the prefix, read as an `i64` or else 0, is the magnitude.
   */
  lemma FromStrWithPrefix(prefix: string, unit: char)
    requires unit in "mhd" && |prefix| > 0
    ensures var num := Text.ParseI64(prefix).GetOr(0);
      FromStr(prefix + [unit]) ==
        (if unit == 'm' then Minutes(num) else if unit == 'h' then Hours(num) else Days(num))
  {
    assert (prefix + [unit])[..|prefix|] == prefix;
  }

  /** Tokens without a unit letter, or too short to hold one, mean `Never`. */
  lemma FromStrNeverExamples()
    ensures FromStr("") == Never && FromStr("never") == Never
    ensures FromStr("m") == Never && FromStr("5") == Never
    ensures FromStr("5x") == Never && FromStr("5M") == Never
  {
  }

  /** "30m" is thirty minutes and "2d" two days. */
  lemma FromStrPlainExamples()
    ensures FromStr("30m") == Minutes(30) && FromStr("2d") == Days(2) && FromStr("1h") == Hours(1)
  {
    assert "30m"[..2] == "30" && "30"[..1] == "3" && "3"[..0] == "";
    assert "2d"[..1] == "2" && "2"[..0] == "";
    assert "1h"[..1] == "1" && "1"[..0] == "";
    FromStrUnit("30m");
    FromStrUnit("2d");
    FromStrUnit("1h");
  }

  /** The prefix is a signed integer, and one that does not parse counts as 0. */
  lemma FromStrSignedExamples()
    ensures FromStr("-5m") == Minutes(-5) && FromStr("+5h") == Hours(5)
    ensures FromStr("xm") == Minutes(0)
  {
    assert "-5m"[..2] == "-5" && "-5"[1..] == "5" && "5"[..0] == "";
    assert "+5h"[..2] == "+5" && "+5"[1..] == "5";
    assert "xm"[..1] == "x";
    FromStrUnit("-5m");
    FromStrUnit("+5h");
    FromStrUnit("xm");
  }

  /** A digit prefix beyond the range of `i64` does not parse, so its magnitude counts as 0 as well. */
  lemma FromStrOverflow(prefix: string, unit: char)
    requires |prefix| > 0 && Text.AllDigits(prefix) && Text.DigitsValue(prefix) > Text.I64Max
    requires unit in "mhd"
    ensures SplittableToken(prefix + [unit])
    ensures !FromStr(prefix + [unit]).Never? && FromStr(prefix + [unit]).n == 0
  {
    var s := prefix + [unit];
    assert s[..|s| - 1] == prefix;
    assert !Text.IsDigit('+') && !Text.IsDigit('-');
    FromStrUnit(s);
  }

  /** A token with a non-negative magnitude never yields an expiry in the past. */
  lemma ExpiryNotBeforeNow(s: string, now: int)
    requires SplittableToken(s)
    requires !FromStr(s).Never? && FromStr(s).n >= 0 && DurationInRange(FromStr(s))
    ensures ToDateTime(FromStr(s), now).value >= now
  {
  }

  /** `to_datetime` of the sample tokens: thirty minutes and two days after `now`, or a minute before it. */
  lemma ToDateTimeExamples(now: int)
    ensures DurationInRange(FromStr("30m")) && ToDateTime(FromStr("30m"), now) == Some(now + 1800)
    ensures DurationInRange(FromStr("2d")) && ToDateTime(FromStr("2d"), now) == Some(now + 172800)
    ensures DurationInRange(FromStr("1h")) && ToDateTime(FromStr("1h"), now) == Some(now + 3600)
    ensures DurationInRange(FromStr("-1m")) && ToDateTime(FromStr("-1m"), now) == Some(now - 60)
  {
    FromStrPlainExamples();
    assert "-1m"[..2] == "-1" && "-1"[1..] == "1" && "1"[..0] == "";
    FromStrUnit("-1m");
  }
}
