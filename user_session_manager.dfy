/** The login session kept in the app's key/value defaults: whether someone
    is logged in, who, with which id and since when, and how long the
    session has lasted. Time is a count of whole seconds since the epoch,
    passed in as `now`. */
module Session {
  import opened Wrappers

  /** A value as the defaults store holds it; `TimeValue` is a time interval
      in whole seconds. */
  datatype DefaultsValue = BoolValue(b: bool) | StringValue(s: string) | IntValue(i: int) | TimeValue(seconds: int)

  const IsLoggedInKey := "isLoggedIn"
  const UsernameKey := "username"
  const UserIdKey := "userId"
  const LoginTimestampKey := "loginTimestamp"

  // ----- Integer arithmetic as Swift does it -----

  /** Swift's `/` on `Int` for a positive divisor: rounds toward zero. */
  function TruncDiv(a: int, b: int): (q: int)
    requires b > 0
    ensures 0 <= a ==> 0 <= a - q * b < b
    ensures a < 0 ==> -b < a - q * b <= 0
  {
    if a >= 0 then a / b else -((-a) / b)
  }

  /** Swift's `%` on `Int` for a positive divisor: takes the sign of `a`. */
  function TruncRem(a: int, b: int): (r: int)
    requires b > 0
    ensures 0 <= a ==> 0 <= r < b
    ensures a < 0 ==> -b < r <= 0
    ensures a == TruncDiv(a, b) * b + r
  {
    a - TruncDiv(a, b) * b
  }

  // ----- Decimal text, as string interpolation of an `Int` writes it -----

  predicate IsDigit(c: char)
  {
    '0' <= c <= '9'
  }

  predicate AllDigits(s: string)
  {
    forall i :: 0 <= i < |s| ==> IsDigit(s[i])
  }

  function DigitChar(d: int): (c: char)
    requires 0 <= d < 10
    ensures IsDigit(c)
  {
    ('0' as int + d) as char
  }

  function DigitValue(c: char): int
  {
    c as int - '0' as int
  }

  /** The decimal digits of `n`, most significant first, no leading zeros. */
  function NatDigits(n: nat): string
  {
    if n < 10 then [DigitChar(n)] else NatDigits(n / 10) + [DigitChar(n % 10)]
  }

  /** `"\(n)"` for an `Int` `n`. */
  function DecimalString(n: int): (r: string)
    ensures |r| > 0
    ensures r[0] == '-' <==> n < 0
    ensures forall i :: 0 < i < |r| ==> IsDigit(r[i])
  {
    NatDigitsDenote(if n < 0 then -n else n);
    if n < 0 then "-" + NatDigits(-n) else NatDigits(n)
  }

  /** The number a string of decimal digits denotes. */
  function DigitsValue(s: string): int
  {
    if s == [] then 0 else DigitsValue(s[..|s| - 1]) * 10 + DigitValue(s[|s| - 1])
  }

  /** The number a decimal text with an optional leading minus denotes. */
  function ParseDecimal(s: string): int
  {
    if |s| > 0 && s[0] == '-' then -DigitsValue(s[1..]) else DigitsValue(s)
  }

  lemma {:induction false} NatDigitsDenote(n: nat)
    ensures |NatDigits(n)| > 0
    ensures AllDigits(NatDigits(n))
    ensures DigitsValue(NatDigits(n)) == n
  {
    if n >= 10 {
      NatDigitsDenote(n / 10);
      var s := NatDigits(n);
      assert s[..|s| - 1] == NatDigits(n / 10);
    }
  }

  /** Reading a rendered integer back gives the integer. */
  lemma DecimalStringRoundTrip(n: int)
    ensures ParseDecimal(DecimalString(n)) == n
  {
    if n < 0 {
      NatDigitsDenote(-n);
      assert DecimalString(n)[1..] == NatDigits(-n);
    } else {
      NatDigitsDenote(n);
    }
  }

  /** A rendered integer holds digits and at most a leading minus: neither an
      `h`, a space nor an `m`. */
  lemma DecimalStringHasNoLetters(n: int)
    ensures |DecimalString(n)| > 0
    ensures forall i :: 0 <= i < |DecimalString(n)| ==>
      DecimalString(n)[i] != 'h' && DecimalString(n)[i] != ' ' && DecimalString(n)[i] != 'm'
  {
    if n < 0 {
      NatDigitsDenote(-n);
      var s := DecimalString(n);
      forall i | 0 <= i < |s|
        ensures s[i] != 'h' && s[i] != ' ' && s[i] != 'm'
      {
        if i > 0 {
          assert s[i] == NatDigits(-n)[i - 1];
        }
      }
    } else {
      NatDigitsDenote(n);
    }
  }

  // ----- The session duration text -----

  /** Whole hours of a duration of `seconds`. */
  function DurationHours(seconds: int): (h: int)
    ensures seconds >= 0 ==> 0 <= h * 3600 <= seconds < h * 3600 + 3600
    ensures seconds < 0 ==> h <= 0 && seconds <= h * 3600 < seconds + 3600
  {
    TruncDiv(seconds, 3600)
  }

  /** Whole minutes past the whole hours. */
  function DurationMinutes(seconds: int): (m: int)
    ensures seconds >= 0 ==> 0 <= m < 60
    ensures seconds < 0 ==> -60 < m <= 0
  {
    TruncDiv(TruncRem(seconds, 3600), 60)
  }

  /** `"{h}h {m}m"` when there is at least an hour, else `"{m}m"`. */
  function DurationString(seconds: int): (t: string)
    ensures |t| >= 2 && t[|t| - 1] == 'm'
    ensures DurationHours(seconds) > 0 <==> 'h' in t
  {
    DecimalStringHasNoLetters(DurationMinutes(seconds));
    var hours := DurationHours(seconds);
    var minutes := DurationMinutes(seconds);
    if hours > 0 then DecimalString(hours) + "h " + DecimalString(minutes) + "m"
    else DecimalString(minutes) + "m"
  }

  /** For a duration that is not negative, the hours and minutes are the
      Euclidean quotients, the minutes lie below 60, and together they give
      the duration to the minute. */
  lemma DurationParts(seconds: int)
    requires seconds >= 0
    ensures DurationHours(seconds) == seconds / 3600
    ensures DurationMinutes(seconds) == (seconds % 3600) / 60
    ensures 0 <= DurationMinutes(seconds) < 60
    ensures DurationHours(seconds) * 3600 + DurationMinutes(seconds) * 60 <= seconds
    ensures seconds < DurationHours(seconds) * 3600 + DurationMinutes(seconds) * 60 + 60
  {
  }

  /** The first position of `c` in `s`, or `|s|` when there is none. */
  function IndexOfChar(s: string, c: char): (k: nat)
    ensures k <= |s|
    ensures forall i :: 0 <= i < k ==> s[i] != c
    ensures k < |s| ==> s[k] == c
  {
    if s == [] then 0 else if s[0] == c then 0 else 1 + IndexOfChar(s[1..], c)
  }

  /** Reads a duration text back as hours and minutes: the text must end in
      `m`; the hours are what stands before an `h ` when there is one. */
  function ReadDuration(t: string): Option<(int, int)>
  {
    if |t| == 0 || t[|t| - 1] != 'm' then None
    else
      var body := t[..|t| - 1];
      var k := IndexOfChar(body, 'h');
      if k == |body| then Some((0, ParseDecimal(body)))
      else if k + 1 < |body| && body[k + 1] == ' ' then
        Some((ParseDecimal(body[..k]), ParseDecimal(body[k + 2..])))
      else None
  }

  /** The duration text reads back as its hours (or none when below an
      hour) and its minutes. */
  lemma DurationStringReadsBack(seconds: int)
    ensures ReadDuration(DurationString(seconds)) ==
      Some((if DurationHours(seconds) > 0 then DurationHours(seconds) else 0, DurationMinutes(seconds)))
  {
    var hours, minutes := DurationHours(seconds), DurationMinutes(seconds);
    var hs, ms := DecimalString(hours), DecimalString(minutes);
    DecimalStringHasNoLetters(hours);
    DecimalStringHasNoLetters(minutes);
    DecimalStringRoundTrip(hours);
    DecimalStringRoundTrip(minutes);
    var t := DurationString(seconds);
    if hours > 0 {
      var body := hs + "h " + ms;
      assert t == body + "m";
      assert t[..|t| - 1] == body;
      assert body[|hs|] == 'h';
      assert forall i :: 0 <= i < |hs| ==> body[i] == hs[i];
      assert IndexOfChar(body, 'h') == |hs|;
      assert body[..|hs|] == hs;
      assert body[|hs| + 2..] == ms;
    } else {
      assert t == ms + "m";
      assert t[..|t| - 1] == ms;
      assert IndexOfChar(ms, 'h') == |ms|;
    }
  }

  class UserSessionManager {
    /** The defaults store, as far as the session keys go. */
    var defaults: map<string, DefaultsValue>

    constructor (defaults: map<string, DefaultsValue>)
      ensures this.defaults == defaults
    {
      this.defaults := defaults;
    }

    /** `bool(forKey:)`: false when the key is missing. */
    function IsLoggedIn(): (r: bool)
      reads this
      ensures r <==> IsLoggedInKey in defaults && defaults[IsLoggedInKey] == BoolValue(true)
    {
      if IsLoggedInKey in defaults then
        match defaults[IsLoggedInKey]
        case BoolValue(b) => b
        case _ => false
      else false
    }

    /** `string(forKey:)`: nothing when the key is missing. */
    function CurrentUsername(): (r: Option<string>)
      reads this
      ensures r.Some? <==> UsernameKey in defaults && defaults[UsernameKey].StringValue?
      ensures r.Some? ==> defaults[UsernameKey] == StringValue(r.value)
    {
      if UsernameKey in defaults && defaults[UsernameKey].StringValue? then Some(defaults[UsernameKey].s)
      else None
    }

    /** `integer(forKey:)`: 0 when the key is missing. */
    function StoredUserId(): (r: int)
      reads this
      ensures UserIdKey !in defaults ==> r == 0
      ensures UserIdKey in defaults && defaults[UserIdKey].IntValue? ==> r == defaults[UserIdKey].i
    {
      if UserIdKey in defaults && defaults[UserIdKey].IntValue? then defaults[UserIdKey].i else 0
    }

    /** The stored id, where 0 (also what a missing key reads as) means no id. */
    function CurrentUserId(): (r: Option<int>)
      reads this
      ensures r.None? <==> StoredUserId() == 0
      ensures r.Some? ==> r.value == StoredUserId() && r.value != 0
    {
      var id := StoredUserId();
      if id == 0 then None else Some(id)
    }

    /** The login time, when a time interval is stored under its key. */
    function LoginTimestamp(): (r: Option<int>)
      reads this
      ensures r.Some? <==> LoginTimestampKey in defaults && defaults[LoginTimestampKey].TimeValue?
      ensures r.Some? ==> defaults[LoginTimestampKey] == TimeValue(r.value)
    {
      if LoginTimestampKey in defaults && defaults[LoginTimestampKey].TimeValue? then
        Some(defaults[LoginTimestampKey].seconds)
      else None
    }

    /** A logged-in session knows its user, id and login time. */
    ghost predicate AllOrNothing()
      reads this
    {
      IsLoggedIn() ==> CurrentUsername().Some? && CurrentUserId().Some? && LoginTimestamp().Some?
    }

    /** Records a login at time `now`. */
    method SaveLoginSession(username: string, userId: int, now: int)
      modifies this
      ensures defaults == old(defaults)[IsLoggedInKey := BoolValue(true)][UsernameKey := StringValue(username)]
                                       [UserIdKey := IntValue(userId)][LoginTimestampKey := TimeValue(now)]
      ensures IsLoggedIn()
      ensures CurrentUsername() == Some(username)
      ensures CurrentUserId() == if userId == 0 then None else Some(userId)
      ensures LoginTimestamp() == Some(now)
      ensures GetSessionDuration(now) == Some(0)
      ensures AllOrNothing() <==> userId != 0
    {
      defaults := defaults[IsLoggedInKey := BoolValue(true)];
      defaults := defaults[UsernameKey := StringValue(username)];
      defaults := defaults[UserIdKey := IntValue(userId)];
      defaults := defaults[LoginTimestampKey := TimeValue(now)];
    }

    /** Removes the four session keys and nothing else. */
    method ClearSession()
      modifies this
      ensures defaults == old(defaults) - {IsLoggedInKey, UsernameKey, UserIdKey, LoginTimestampKey}
      ensures !IsLoggedIn()
      ensures CurrentUsername().None? && CurrentUserId().None? && LoginTimestamp().None?
      ensures AllOrNothing()
    {
      defaults := defaults - {IsLoggedInKey};
      defaults := defaults - {UsernameKey};
      defaults := defaults - {UserIdKey};
      defaults := defaults - {LoginTimestampKey};
    }

    /** Seconds since login, or nothing without a login time. */
    function GetSessionDuration(now: int): (r: Option<int>)
      reads this
      ensures r.None? <==> LoginTimestamp().None?
      ensures r.Some? ==> LoginTimestamp().value + r.value == now
    {
      match LoginTimestamp()
      case None => None
      case Some(timestamp) => Some(now - timestamp)
    }

    /** The session duration as text, or nothing without a login time. */
    function GetSessionDurationString(now: int): (r: Option<string>)
      reads this
      ensures r.None? <==> GetSessionDuration(now).None?
      ensures r.Some? ==> r.value == DurationString(GetSessionDuration(now).value)
    {
      match GetSessionDuration(now)
      case None => None
      case Some(duration) => Some(DurationString(duration))
    }
  }
}
