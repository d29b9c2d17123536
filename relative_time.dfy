/** `Utils.timeAgo`: the relative age ("just now", "5m", "3h", "2d") shown for
    posts and comments. Timestamps are integer milliseconds; the wall clock is
    a parameter. */
module RelativeTime {

  /** The bucket `timeAgo` picks, with the count it prints. */
  datatype Age = JustNow | Minutes(mins: nat) | Hours(hrs: nat) | Days(days: nat)

  /** `Math.floor((now - then) / 1000)`. Dafny's `/` by a positive divisor
      rounds down, as `Math.floor` does, also for a date in the future. */
  function ElapsedSeconds(nowMs: int, thenMs: int): (s: int)
    ensures 1000 * s <= nowMs - thenMs < 1000 * (s + 1)
  {
    (nowMs - thenMs) / 1000
  }

  /** The branches of `timeAgo`: minutes, hours and days are each the floor of
      the previous unit divided again. */
  function AgeOf(seconds: int): Age {
    if seconds < 60 then JustNow
    else
      var mins := seconds / 60;
      if mins < 60 then Minutes(mins)
      else
        var hrs := mins / 60;
        if hrs < 24 then Hours(hrs)
        else Days(hrs / 24)
  }

  /** A decimal digit. */
  predicate IsDigit(c: char) {
    '0' <= c <= '9'
  }

  /** The decimal text JavaScript gives a non-negative integer: no sign and no
      leading zero. */
  function Decimal(n: nat): (r: string)
    ensures |r| >= 1
    ensures forall k :: 0 <= k < |r| ==> IsDigit(r[k])
    ensures n > 0 ==> r[0] != '0'
    decreases n
  {
    if n < 10 then ["0123456789"[n]] else Decimal(n / 10) + ["0123456789"[n % 10]]
  }

  /** The value of a decimal digit. */
  function DigitValue(c: char): (d: nat)
    requires IsDigit(c)
    ensures d < 10
  {
    c as int - '0' as int
  }

  /** Reads a string of decimal digits back as a number. */
  function ParseDecimal(s: string): nat
    requires forall k :: 0 <= k < |s| ==> IsDigit(s[k])
  {
    if s == [] then 0
    else ParseDecimal(s[..|s| - 1]) * 10 + DigitValue(s[|s| - 1])
  }

  /** Decimal loses nothing: parsing the text gives the number back. */
  lemma {:induction false} ParseDecimalInverse(n: nat)
    ensures ParseDecimal(Decimal(n)) == n
    decreases n
  {
    var r := Decimal(n);
    if n < 10 {
      assert r[..|r| - 1] == [];
    } else {
      assert r[..|r| - 1] == Decimal(n / 10);
      ParseDecimalInverse(n / 10);
    }
  }

  /** The text `timeAgo` returns for a bucket. */
  function Label(a: Age): string {
    match a
    case JustNow => "just now"
    case Minutes(m) => Decimal(m) + "m"
    case Hours(h) => Decimal(h) + "h"
    case Days(d) => Decimal(d) + "d"
  }

  /** `Utils.timeAgo(date)` evaluated at the instant `nowMs`. */
  function TimeAgo(nowMs: int, thenMs: int): string {
    Label(AgeOf(ElapsedSeconds(nowMs, thenMs)))
  }

  /** The buckets stated on the elapsed seconds directly: under a minute is
      "just now"; otherwise the largest unit of which at least one whole unit
      has passed, counted with floor division, and at most 59 minutes or 23
      hours before the next unit takes over. */
  lemma AgeBuckets(s: int)
    ensures AgeOf(s) == JustNow <==> s < 60
    ensures 60 <= s < 3600 ==> AgeOf(s) == Minutes(s / 60) && 1 <= s / 60 < 60
    ensures 3600 <= s < 86400 ==> AgeOf(s) == Hours(s / 3600) && 1 <= s / 3600 < 24
    ensures 86400 <= s ==> AgeOf(s) == Days(s / 86400) && s / 86400 >= 1
  {
  }

  /** The shown count never overstates the age: a label "Nm", "Nh" or "Nd"
      means at least N whole units, and less than N + 1, have passed. */
  lemma AgeBounds(s: int)
    ensures AgeOf(s).Minutes? ==> 60 * AgeOf(s).mins <= s < 60 * (AgeOf(s).mins + 1)
    ensures AgeOf(s).Hours? ==> 3600 * AgeOf(s).hrs <= s < 3600 * (AgeOf(s).hrs + 1)
    ensures AgeOf(s).Days? ==> 86400 * AgeOf(s).days <= s < 86400 * (AgeOf(s).days + 1)
  {
    AgeBuckets(s);
  }

  /** The printed count and unit letter of a bucket other than "just now". */
  function CountAndUnit(a: Age): (nat, char)
    requires !a.JustNow?
  {
    match a
    case Minutes(m) => (m, 'm')
    case Hours(h) => (h, 'h')
    case Days(d) => (d, 'd')
  }

  /** A label other than "just now" ends with its unit letter. That letter is
      never `'w'`, the last letter of "just now", so `LabelInjective` can tell
      "just now" apart from every other label. */
  lemma LastIsUnit(a: Age)
    requires !a.JustNow?
    ensures Label(a)[|Label(a)| - 1] == CountAndUnit(a).1 != 'w'
  {
  }

  /** Different buckets or counts are always shown as different text. */
  lemma {:induction false} LabelInjective(a: Age, b: Age)
    requires Label(a) == Label(b)
    ensures a == b
  {
    if !a.JustNow? && !b.JustNow? {
      var (ca, ua) := CountAndUnit(a);
      var (cb, ub) := CountAndUnit(b);
      var la := Label(a);
      assert la == Decimal(ca) + [ua] && la == Decimal(cb) + [ub];
      assert la[|la| - 1] == ua == ub;
      assert la[..|la| - 1] == Decimal(ca) == Decimal(cb);
      ParseDecimalInverse(ca);
      ParseDecimalInverse(cb);
    } else if a.JustNow? != b.JustNow? {
      var c := if a.JustNow? then b else a;
      LastIsUnit(c);
      assert false;
    }
  }
}
