/**
 * `formatTimeDiff` of app/src/helpers/calculeteTime.ts: the time left until
 * a Unix timestamp, as "<d> d <h> h <m> m", or "Complated" once the minute
 * component is negative. The clock read `Date.now()` (milliseconds) is the
 * parameter `nowMillis`.
 *
 * JavaScript's `%` truncates toward zero while Dafny's is Euclidean, so the
 * source's remainder is `TruncRem`; `Math.floor(x / k)` with k > 0 is
 * Dafny's `x / k`.
 */
module CalculeteTime {

  const SecondsPerDay := 86400
  const SecondsPerHour := 3600
  const SecondsPerMinute := 60

  /** The quotient truncated toward zero, as JavaScript's `%` uses it. */
  function TruncDiv(a: int, m: int): (q: int)
    requires m > 0
    ensures a >= 0 ==> q >= 0
    ensures a <= 0 ==> q <= 0
  {
    if a >= 0 then a / m else -((-a) / m)
  }

  /** JavaScript's `a % m` for m > 0: the remainder carries the sign of a. */
  function TruncRem(a: int, m: int): (r: int)
    requires m > 0
    ensures -m < r < m
    ensures a >= 0 ==> r >= 0
    ensures a <= 0 ==> r <= 0
    ensures a == m * TruncDiv(a, m) + r
  {
    if a >= 0 then a % m else -((-a) % m)
  }

  datatype TimeParts = TimeParts(days: int, hours: int, minutes: int)

  /** Seconds from now (`Math.floor(Date.now() / 1000)`) until `timestamp`. */
  function Diff(timestamp: int, nowMillis: int): (r: int)
    ensures 1000 * (timestamp - r) <= nowMillis < 1000 * (timestamp - r + 1)
  {
    timestamp - nowMillis / 1000
  }

  /**
   * The three components computed from the difference. The floored division
   * of a negative remainder lets hours reach -24 and minutes -60.
   */
  function Parts(diff: int): (r: TimeParts)
    ensures -24 <= r.hours < 24 && -60 <= r.minutes < 60
  {
    TimeParts(
      diff / SecondsPerDay,
      TruncRem(diff, SecondsPerDay) / SecondsPerHour,
      TruncRem(diff, SecondsPerHour) / SecondsPerMinute)
  }

  function DigitChar(d: nat): (c: char)
    requires d < 10
    ensures '0' <= c <= '9' && c as int - '0' as int == d
  {
    ('0' as int + d) as char
  }

  predicate IsDigits(s: string) {
    forall i :: 0 <= i < |s| ==> '0' <= s[i] <= '9'
  }

  /** Decimal rendering of a natural number, without leading zeros. */
  function NatToString(n: nat): (s: string)
    ensures |s| >= 1 && IsDigits(s)
    ensures |s| > 1 ==> s[0] != '0'
  {
    if n < 10 then [DigitChar(n)] else NatToString(n / 10) + [DigitChar(n % 10)]
  }

  /** `${n}` for an integer n (JavaScript's -0 prints as "0", as 0 does here). */
  function IntToString(n: int): (r: string)
    ensures |r| >= 1 && (r[0] == '-' <==> n < 0)
    ensures IsDigits(if n < 0 then r[1..] else r)
  {
    if n < 0 then "-" + NatToString(-n) else NatToString(n)
  }

  /** The value of a string of decimal digits. */
  function DecimalValue(s: string): nat
    requires IsDigits(s)
  {
    if s == [] then 0 else 10 * DecimalValue(s[..|s| - 1]) + (s[|s| - 1] as int - '0' as int)
  }

  /** The value of an optionally signed decimal string. */
  function ParseInt(s: string): int
    requires s != [] && IsDigits(if s[0] == '-' then s[1..] else s)
  {
    if s[0] == '-' then -(DecimalValue(s[1..]) as int) else DecimalValue(s)
  }

  /** Reading back a rendered natural number gives that number. */
  lemma {:induction false} NatToStringValue(n: nat)
    ensures DecimalValue(NatToString(n)) == n
  {
    if n >= 10 {
      NatToStringValue(n / 10);
      var s := NatToString(n);
      assert s[..|s| - 1] == NatToString(n / 10);
    }
  }

  /** Reading back a rendered integer gives that integer. */
  lemma IntToStringValue(n: int)
    ensures var s := IntToString(n);
      s != [] && IsDigits(if s[0] == '-' then s[1..] else s) && ParseInt(s) == n
  {
    var s := IntToString(n);
    if n < 0 {
      NatToStringValue(-n);
      assert s[1..] == NatToString(-n);
    } else {
      NatToStringValue(n);
    }
  }

  /** The "d h m" text of the three components. */
  function Render(p: TimeParts): (s: string)
    ensures |s| >= 2 && s[|s| - 2..] == " m"
  {
    IntToString(p.days) + " d " + IntToString(p.hours) + " h " + IntToString(p.minutes) + " m"
  }

  predicate NoSpace(s: string) {
    forall i :: 0 <= i < |s| ==> s[i] != ' '
  }

  /** No rendered integer contains a space. */
  lemma IntToStringNoSpace(n: int)
    ensures NoSpace(IntToString(n))
  {
    var s := IntToString(n);
    if n < 0 {
      assert forall i :: 1 <= i < |s| ==> s[i] == s[1..][i - 1];
    }
  }

  /**
   * Two texts that each start with a space-free word followed by a space
   * split at the same place.
   */
  lemma SplitAtSpace(a: string, b: string, x: string, y: string)
    requires NoSpace(a) && NoSpace(x)
    requires |b| > 0 && b[0] == ' ' && |y| > 0 && y[0] == ' '
    requires a + b == x + y
    ensures a == x && b == y
  {
    assert (a + b)[|a|] == ' ' && (x + y)[|x|] == ' ';
    assert forall i :: 0 <= i < |x| ==> (x + y)[i] == x[i];
    assert forall i :: 0 <= i < |a| ==> (a + b)[i] == a[i];
    assert a == (a + b)[..|a|] && x == (x + y)[..|x|];
    assert b == (a + b)[|a|..] && y == (x + y)[|x|..];
  }

  /** A space-free word, then a separator that starts with a space, then the rest. */
  lemma SplitWord(a: string, sep: string, b: string, x: string, y: string)
    requires NoSpace(a) && NoSpace(x) && |sep| > 0 && sep[0] == ' '
    requires a + (sep + b) == x + (sep + y)
    ensures a == x && b == y
  {
    SplitAtSpace(a, sep + b, x, sep + y);
    assert b == (sep + b)[|sep|..] && y == (sep + y)[|sep|..];
  }

  /** Different integers render differently. */
  lemma IntToStringInjective(n: int, k: int)
    requires IntToString(n) == IntToString(k)
    ensures n == k
  {
    IntToStringValue(n);
    IntToStringValue(k);
  }

  /** The rendering as nested word-separator pairs. */
  lemma RenderShape(p: TimeParts)
    ensures Render(p) == IntToString(p.days) + (" d " + (IntToString(p.hours) + (" h " + (IntToString(p.minutes) + " m"))))
  {
  }

  /** The text determines the three components: different breakdowns render differently. */
  lemma RenderReadBack(p: TimeParts, q: TimeParts)
    requires Render(p) == Render(q)
    ensures p == q
  {
    var d, h, m := IntToString(p.days), IntToString(p.hours), IntToString(p.minutes);
    var d', h', m' := IntToString(q.days), IntToString(q.hours), IntToString(q.minutes);
    RenderShape(p);
    RenderShape(q);
    IntToStringNoSpace(p.days);
    IntToStringNoSpace(q.days);
    SplitWord(d, " d ", h + (" h " + (m + " m")), d', h' + (" h " + (m' + " m")));
    IntToStringNoSpace(p.hours);
    IntToStringNoSpace(q.hours);
    SplitWord(h, " h ", m + " m", h', m' + " m");
    IntToStringNoSpace(p.minutes);
    IntToStringNoSpace(q.minutes);
    SplitAtSpace(m, " m", m', " m");
    IntToStringInjective(p.days, q.days);
    IntToStringInjective(p.hours, q.hours);
    IntToStringInjective(p.minutes, q.minutes);
  }

  /** `formatTimeDiff(timestamp)` with the clock reading `nowMillis`. */
  function FormatTimeDiff(timestamp: int, nowMillis: int): (r: string)
    ensures r == "Complated" <==> Parts(Diff(timestamp, nowMillis)).minutes < 0
  {
    var p := Parts(Diff(timestamp, nowMillis));
    if p.minutes < 0 then "Complated"
    else
      var s := Render(p);
      assert s[|s| - 1] != "Complated"[|"Complated"| - 1];
      s
  }

  /** The day count is the floor of the difference in days. */
  lemma DaysIsFloor(diff: int)
    ensures var d := Parts(diff).days;
      d * SecondsPerDay <= diff < d * SecondsPerDay + SecondsPerDay
  {
  }

  /**
   * For a timestamp not in the past, the components are a proper
   * day/hour/minute breakdown of the difference, exact up to the dropped
   * seconds.
   */
  lemma AheadBreakdown(diff: int)
    requires diff >= 0
    ensures var p := Parts(diff);
      0 <= p.days && 0 <= p.hours < 24 && 0 <= p.minutes < 60 &&
      var whole := p.days * SecondsPerDay + p.hours * SecondsPerHour + p.minutes * SecondsPerMinute;
      whole <= diff < whole + SecondsPerMinute
  {
    var q, r := diff / SecondsPerDay, diff % SecondsPerDay;
    var h, m := r / SecondsPerHour, r % SecondsPerHour;
    assert diff == 86400 * q + r;
    assert r == 3600 * h + m;
    assert diff == 3600 * (24 * q + h) + m;
    RemainderUnique(diff, 24 * q + h, m);
  }

  /** The remainder by an hour is determined by any decomposition into whole hours plus a rest. */
  lemma RemainderUnique(x: int, k: int, m: int)
    requires x == 3600 * k + m && 0 <= m < 3600
    ensures x % SecondsPerHour == m
  {
    var k', m' := x / 3600, x % 3600;
    assert x == 3600 * k' + m';
    assert k' == k by {
      if k' < k {
        assert false;
      } else if k' > k {
        assert false;
      }
    }
  }

  /** A timestamp not in the past always renders as the "d h m" text. */
  lemma AheadIsNotCompleted(timestamp: int, nowMillis: int)
    requires Diff(timestamp, nowMillis) >= 0
    ensures FormatTimeDiff(timestamp, nowMillis) == Render(Parts(Diff(timestamp, nowMillis)))
    ensures FormatTimeDiff(timestamp, nowMillis) != "Complated"
  {
    var s := Render(Parts(Diff(timestamp, nowMillis)));
    assert s[|s| - 1] == 'm';
  }

  /** Negating the difference does not change whether it is a whole number of hours. */
  lemma WholeHoursUnderNegation(diff: int)
    ensures (-diff) % SecondsPerHour == 0 <==> diff % SecondsPerHour == 0
  {
    if diff % SecondsPerHour == 0 {
      assert -diff == (-(diff / SecondsPerHour)) * SecondsPerHour;
    }
    if (-diff) % SecondsPerHour == 0 {
      assert diff == (-((-diff) / SecondsPerHour)) * SecondsPerHour;
    }
  }

  /**
   * Because the remainder truncates, the minute component is negative
   * exactly when the difference is negative and not a whole number of hours.
   */
  lemma MinutesNegativeExactly(diff: int)
    ensures Parts(diff).minutes < 0 <==> diff < 0 && diff % SecondsPerHour != 0
  {
    var r := TruncRem(diff, SecondsPerHour);
    assert Parts(diff).minutes < 0 <==> r < 0;
    if diff < 0 {
      assert r == -((-diff) % SecondsPerHour);
      WholeHoursUnderNegation(diff);
    }
  }

  /**
   * The text is "Complated" exactly when the timestamp is in the past by an
   * amount that is not a whole number of hours.
   */
  lemma CompletedExactly(timestamp: int, nowMillis: int)
    ensures var diff := Diff(timestamp, nowMillis);
      FormatTimeDiff(timestamp, nowMillis) == "Complated" <==> diff < 0 && diff % SecondsPerHour != 0
  {
    var diff := Diff(timestamp, nowMillis);
    var p := Parts(diff);
    MinutesNegativeExactly(diff);
    if p.minutes >= 0 {
      var s := Render(p);
      assert s[|s| - 1] == 'm';
    }
  }

  /** A past whole hour is not "Complated": one hour ago reads "-1 d -1 h 0 m". */
  lemma OneHourAgo(timestamp: int, nowMillis: int)
    requires Diff(timestamp, nowMillis) == -SecondsPerHour
    ensures Parts(Diff(timestamp, nowMillis)) == TimeParts(-1, -1, 0)
    ensures FormatTimeDiff(timestamp, nowMillis) == "-1 d -1 h 0 m"
  {
    assert IntToString(-1) == "-1";
    assert IntToString(0) == "0";
  }

  /**
   * The evident intent of the "Complated" branch: every past timestamp is
   * complete. The text for a timestamp not in the past is unchanged.
   */
  function FormatTimeDiffCorrected(timestamp: int, nowMillis: int): string {
    var diff := Diff(timestamp, nowMillis);
    if diff < 0 then "Complated" else Render(Parts(diff))
  }

  /** The corrected text is "Complated" exactly for past timestamps, and agrees with the source otherwise. */
  lemma CorrectedCompletedExactly(timestamp: int, nowMillis: int)
    ensures FormatTimeDiffCorrected(timestamp, nowMillis) == "Complated" <==> Diff(timestamp, nowMillis) < 0
    ensures Diff(timestamp, nowMillis) >= 0 ==>
      FormatTimeDiffCorrected(timestamp, nowMillis) == FormatTimeDiff(timestamp, nowMillis)
  {
    var diff := Diff(timestamp, nowMillis);
    if diff >= 0 {
      AheadIsNotCompleted(timestamp, nowMillis);
    }
  }
}
