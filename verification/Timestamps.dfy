/**
 Grant expiry times: calendar stamps, their seconds, their text in the two forms
 the grants table may hold, and how SQLite's byte-wise text order relates to time.

 Times are whole seconds. A stamp may name second 60; it counts as the second
 after, which no comparison with a clock reading can tell apart.
 */
module Timestamps {
  import opened Numbers

  datatype Stamp = Stamp(year: nat, month: nat, day: nat, hour: nat, minute: nat, second: nat)

  predicate IsLeap(year: nat) {
    year % 4 == 0 && (year % 100 != 0 || year % 400 == 0)
  }

  function DaysInMonth(year: nat, month: nat): nat {
    if month in {4, 6, 9, 11} then 30
    else if month == 2 then (if IsLeap(year) then 29 else 28)
    else 31
  }

  predicate IsStamp(t: Stamp) {
    && t.year <= 9999 && 1 <= t.month <= 12 && 1 <= t.day <= DaysInMonth(t.year, t.month)
    && t.hour <= 23 && t.minute <= 59 && t.second <= 60
  }

  /** A reading of the system clock. */
  predicate IsClock(t: Stamp) {
    IsStamp(t) && t.second <= 59
  }

  // ---------- seconds ----------

  /** Days of the months before `month`. */
  function DaysBeforeMonth(year: nat, month: nat): nat {
    if month <= 1 then 0 else DaysBeforeMonth(year, month - 1) + DaysInMonth(year, month - 1)
  }

  function DaysBeforeYear(year: nat): nat {
    if year == 0 then 0 else DaysBeforeYear(year - 1) + if IsLeap(year - 1) then 366 else 365
  }

  function Day(t: Stamp): nat {
    DaysBeforeYear(t.year) + DaysBeforeMonth(t.year, t.month) + t.day
  }

  function TimeOfDay(t: Stamp): nat {
    3600 * t.hour + 60 * t.minute + t.second
  }

  function Seconds(t: Stamp): nat {
    86400 * Day(t) + TimeOfDay(t)
  }

  /** How many of the years from 0 up to `year` are multiples of `n`. */
  function Multiples(year: nat, n: nat): int
    requires n >= 1
  {
    (year + n - 1) / n
  }

  lemma {:induction false} MultiplesNext(year: nat, n: nat)
    requires n >= 1
    ensures Multiples(0, n) == 0
    ensures Multiples(year + 1, n) == Multiples(year, n) + if year % n == 0 then 1 else 0
  {
    var q, r := year / n, year % n;
    assert year == q * n + r;
    assert (q + 1) * n == q * n + n;
    ModUnique(n - 1, n, 0, n - 1);
    ModUnique(year + n, n, q + 1, r);
    if r == 0 {
      ModUnique(year + n - 1, n, q, n - 1);
    } else {
      ModUnique(year + n - 1, n, q + 1, r - 1);
    }
  }

  lemma {:induction false} LeapIff(year: nat)
    ensures (if IsLeap(year) then 1 else 0)
            == (if year % 4 == 0 then 1 else 0) - (if year % 100 == 0 then 1 else 0)
               + (if year % 400 == 0 then 1 else 0)
  {
    if year % 100 == 0 {
      ModUnique(year, 4, 25 * (year / 100), 0);
    }
    if year % 400 == 0 {
      ModUnique(year, 100, 4 * (year / 400), 0);
    }
  }

  /** The days of whole years are those of the Gregorian calendar. */
  lemma {:induction false} GregorianYears(year: nat)
    ensures DaysBeforeYear(year) == 365 * year + Multiples(year, 4) - Multiples(year, 100) + Multiples(year, 400)
  {
    hide Multiples, IsLeap;
    if year == 0 {
      MultiplesNext(0, 4);
      MultiplesNext(0, 100);
      MultiplesNext(0, 400);
    } else {
      GregorianYears(year - 1);
      LeapIff(year - 1);
      MultiplesNext(year - 1, 4);
      MultiplesNext(year - 1, 100);
      MultiplesNext(year - 1, 400);
    }
  }

  const DAYS_BEFORE := [0, 31, 59, 90, 120, 151, 181, 212, 243, 273, 304, 334]

  lemma {:induction false} GregorianMonths(year: nat, month: nat)
    requires 1 <= month <= 12
    ensures DaysBeforeMonth(year, month)
            == DAYS_BEFORE[month - 1]
               + if month > 2 && year % 4 == 0 && (year % 100 != 0 || year % 400 == 0) then 1 else 0
  {
    if month == 1 {
    } else {
      GregorianMonths(year, month - 1);
    }
  }

  predicate DateBefore(a: Stamp, b: Stamp) {
    || a.year < b.year
    || (a.year == b.year && a.month < b.month)
    || (a.year == b.year && a.month == b.month && a.day < b.day)
  }

  predicate SameDate(a: Stamp, b: Stamp) {
    a.year == b.year && a.month == b.month && a.day == b.day
  }

  lemma {:induction false} LaterMonth(year: nat, a: nat, b: nat)
    requires 1 <= a < b
    ensures DaysBeforeMonth(year, a) + DaysInMonth(year, a) <= DaysBeforeMonth(year, b)
  {
    if a < b - 1 {
      LaterMonth(year, a, b - 1);
    }
  }

  lemma {:induction false} LaterYear(a: nat, b: nat)
    requires a < b
    ensures DaysBeforeYear(a) + (if IsLeap(a) then 366 else 365) <= DaysBeforeYear(b)
  {
    if a < b - 1 {
      LaterYear(a, b - 1);
    }
  }

  lemma MonthEndsInYear(year: nat, month: nat)
    requires 1 <= month <= 12
    ensures DaysBeforeMonth(year, month) + DaysInMonth(year, month) <= if IsLeap(year) then 366 else 365
  {
    if month < 12 {
      LaterMonth(year, month, 12);
    }
    DaysBeforeDecember(year);
  }

  lemma DaysBeforeDecember(year: nat)
    ensures DaysBeforeMonth(year, 12) == if IsLeap(year) then 335 else 334
  {
    var february := if IsLeap(year) then 29 else 28;
    assert DaysBeforeMonth(year, 2) == 31;
    assert DaysBeforeMonth(year, 4) == 62 + february;
    assert DaysBeforeMonth(year, 6) == 123 + february;
    assert DaysBeforeMonth(year, 8) == 184 + february;
    assert DaysBeforeMonth(year, 10) == 245 + february;
  }

  lemma DateOrder(a: Stamp, b: Stamp)
    requires IsStamp(a) && IsStamp(b)
    ensures DateBefore(a, b) ==> Day(a) < Day(b)
    ensures SameDate(a, b) || DateBefore(a, b) || DateBefore(b, a)
  {
    if a.year < b.year {
      LaterYear(a.year, b.year);
      MonthEndsInYear(a.year, a.month);
    } else if a.year == b.year && a.month < b.month {
      LaterMonth(a.year, a.month, b.month);
    }
  }

  /** Seconds order stamps as the calendar does: by date, and by time on the same date. */
  lemma LaterThanClock(clock: Stamp, t: Stamp)
    requires IsClock(clock) && IsStamp(t)
    ensures Seconds(t) > Seconds(clock) ==>
              DateBefore(clock, t) || (SameDate(clock, t) && TimeOfDay(t) > TimeOfDay(clock))
  {
    DateOrder(t, clock);
    DateOrder(clock, t);
    hide Day;
    assert SameDate(clock, t) ==> Day(clock) == Day(t) by {
      SameDay(clock, t);
    }
  }

  lemma SameDay(a: Stamp, b: Stamp)
    ensures SameDate(a, b) ==> Day(a) == Day(b)
  {
  }

  // ---------- text ----------

  function Digit(n: nat): (c: char)
    requires n <= 9
  {
    ('0' as int + n) as char
  }

  function Two(n: nat): (r: string)
    ensures |r| == 2
  {
    [Digit(n / 10 % 10), Digit(n % 10)]
  }

  function DateText(t: Stamp): (r: string)
    ensures |r| == 10
  {
    Two(t.year / 100) + Two(t.year % 100) + "-" + Two(t.month) + "-" + Two(t.day)
  }

  function TimeText(t: Stamp): (r: string)
    ensures |r| == 8
  {
    Two(t.hour) + ":" + Two(t.minute) + ":" + Two(t.second)
  }

  /** "YYYY-MM-DD HH:MM:SS", or with 'T' between date and time. */
  function Text(t: Stamp, sep: char): string {
    DateText(t) + ([sep] + TimeText(t))
  }

  /** Two decimal digits of `s` at `i` say `n`. */
  predicate Shows(s: string, i: nat, n: nat)
    requires i + 2 <= |s|
  {
    && '0' <= s[i] <= '9' && '0' <= s[i + 1] <= '9'
    && 10 * (s[i] as int - '0' as int) + (s[i + 1] as int - '0' as int) == n
  }

  /** YYYY-MM-DD, the separator, HH:MM:SS. */
  lemma TextIs(t: Stamp, sep: char)
    requires IsStamp(t)
    ensures var s := Text(t, sep);
            && |s| == 19
            && Shows(s, 0, t.year / 100) && Shows(s, 2, t.year % 100) && s[4] == '-'
            && Shows(s, 5, t.month) && s[7] == '-' && Shows(s, 8, t.day) && s[10] == sep
            && Shows(s, 11, t.hour) && s[13] == ':' && Shows(s, 14, t.minute) && s[16] == ':' && Shows(s, 17, t.second)
  {
    hide Two, DaysInMonth;
    var d, h := DateText(t), TimeText(t);
    TwoShows(t.year / 100);
    TwoShows(t.year % 100);
    TwoShows(t.month);
    TwoShows(t.day);
    TwoShows(t.hour);
    TwoShows(t.minute);
    TwoShows(t.second);
    assert t.day <= 31 by { MonthLength(t); }
    assert forall i | 0 <= i < 10 :: Text(t, sep)[i] == d[i];
    assert forall i | 0 <= i < 8 :: Text(t, sep)[11 + i] == h[i];
  }

  lemma MonthLength(t: Stamp)
    ensures DaysInMonth(t.year, t.month) <= 31
  {
  }

  lemma TwoShows(n: nat)
    ensures n <= 99 ==> Shows(Two(n), 0, n)
  {
  }

  /** What `datetime('now')` prints. */
  function ClockText(clock: Stamp): string {
    Text(clock, ' ')
  }

  /** SQLite's `<` on text: the order of the bytes. */
  predicate TextBefore(a: string, b: string) {
    b != [] && (a == [] || a[0] < b[0] || (a[0] == b[0] && TextBefore(a[1..], b[1..])))
  }

  lemma SameStart(a: string, b: string, i: nat)
    requires 0 < i <= |a| && i <= |b|
    ensures a[..i] == b[..i] ==> a[0] == b[0]
  {
    assert a[..i][0] == a[0] && b[..i][0] == b[0];
  }

  /** The order is that of the first character in which two texts differ; a proper
      start comes before the whole. */
  lemma {:induction false} TextBeforeIff(a: string, b: string)
    ensures TextBefore(a, b) <==>
            a < b || exists i :: 0 <= i < |a| && i < |b| && a[..i] == b[..i] && a[i] < b[i]
  {
    if a == [] || b == [] {
    } else if a[0] == b[0] {
      TextBeforeIff(a[1..], b[1..]);
      assert a == [a[0]] + a[1..] && b == [b[0]] + b[1..];
      if i :| 0 <= i < |a| - 1 && i < |b| - 1 && a[1..][..i] == b[1..][..i] && a[1..][i] < b[1..][i] {
        assert a[..i + 1] == [a[0]] + a[1..][..i] && b[..i + 1] == [b[0]] + b[1..][..i];
        assert a[i + 1] < b[i + 1];
      }
      if i :| 0 <= i < |a| && i < |b| && a[..i] == b[..i] && a[i] < b[i] {
        assert a[1..][..i - 1] == a[..i][1..] == b[..i][1..] == b[1..][..i - 1];
        assert a[1..][i - 1] < b[1..][i - 1];
      }
    } else {
      assert a[..0] == b[..0];
      forall i | 0 < i <= |a| && i <= |b| ensures a[..i] != b[..i] {
        SameStart(a, b, i);
      }
    }
  }

  lemma {:induction false} TextBeforeSplits(a: string, b: string, x: string, y: string)
    requires |a| == |b|
    ensures TextBefore(a + x, b + y) <==> TextBefore(a, b) || (a == b && TextBefore(x, y))
  {
    if a == [] {
      assert a + x == x && b + y == y;
    } else {
      assert (a + x)[1..] == a[1..] + x && (b + y)[1..] == b[1..] + y;
      TextBeforeSplits(a[1..], b[1..], x, y);
    }
  }

  lemma TwoOrder(m: nat, n: nat)
    requires m <= 99 && n <= 99
    ensures TextBefore(Two(m), Two(n)) <==> m < n
    ensures Two(m) == Two(n) <==> m == n
  {
    TextBeforeSplits([Digit(m / 10)], [Digit(n / 10)], [Digit(m % 10)], [Digit(n % 10)]);
    OneOrder(m / 10, n / 10);
    OneOrder(m % 10, n % 10);
    assert Two(m) == [Digit(m / 10)] + [Digit(m % 10)] && Two(n) == [Digit(n / 10)] + [Digit(n % 10)];
    assert Two(m)[0] == Digit(m / 10) && Two(n)[0] == Digit(n / 10);
    assert Two(m)[1] == Digit(m % 10) && Two(n)[1] == Digit(n % 10);
  }

  lemma OneOrder(m: nat, n: nat)
    requires m <= 9 && n <= 9
    ensures TextBefore([Digit(m)], [Digit(n)]) <==> m < n
    ensures Digit(m) == Digit(n) <==> m == n
  {
    assert [Digit(m)][1..] == [] && [Digit(n)][1..] == [];
  }

  /** Two digits, then more text. */
  lemma TwoThen(m: nat, n: nat, x: string, y: string)
    requires m <= 99 && n <= 99
    ensures TextBefore(Two(m) + x, Two(n) + y) <==> m < n || (m == n && TextBefore(x, y))
    ensures Two(m) + x == Two(n) + y <==> m == n && x == y
  {
    TextBeforeSplits(Two(m), Two(n), x, y);
    TwoOrder(m, n);
    assert (Two(m) + x)[..2] == Two(m) && (Two(n) + y)[..2] == Two(n);
    assert (Two(m) + x)[2..] == x && (Two(n) + y)[2..] == y;
  }

  lemma SameThen(s: string, x: string, y: string)
    ensures TextBefore(s + x, s + y) <==> TextBefore(x, y)
    ensures s + x == s + y <==> x == y
  {
    TextBeforeSplits(s, s, x, y);
    NotBeforeItself(s);
    assert (s + x)[|s|..] == x && (s + y)[|s|..] == y;
  }

  lemma {:induction false} NotBeforeItself(s: string)
    ensures !TextBefore(s, s)
  {
    if s == [] {
    } else {
      NotBeforeItself(s[1..]);
    }
  }

  lemma DateTextOrder(a: Stamp, b: Stamp)
    requires IsStamp(a) && IsStamp(b)
    ensures TextBefore(DateText(a), DateText(b)) <==> DateBefore(a, b)
    ensures DateText(a) == DateText(b) <==> SameDate(a, b)
  {
    hide Two, TextBefore;
    var da, db := Two(a.day), Two(b.day);
    var ma, mb := Two(a.month) + ("-" + da), Two(b.month) + ("-" + db);
    var ya, yb := Two(a.year % 100) + ("-" + ma), Two(b.year % 100) + ("-" + mb);
    assert DateText(a) == Two(a.year / 100) + ya;
    assert DateText(b) == Two(b.year / 100) + yb;
    TwoThen(a.year / 100, b.year / 100, ya, yb);
    TwoThen(a.year % 100, b.year % 100, "-" + ma, "-" + mb);
    SameThen("-", ma, mb);
    TwoThen(a.month, b.month, "-" + da, "-" + db);
    SameThen("-", da, db);
    TwoOrder(a.day, b.day);
  }

  lemma TimeTextOrder(a: Stamp, b: Stamp)
    requires IsStamp(a) && IsStamp(b)
    ensures TextBefore(TimeText(a), TimeText(b))
            <==> a.hour < b.hour || (a.hour == b.hour && a.minute < b.minute)
                 || (a.hour == b.hour && a.minute == b.minute && a.second < b.second)
  {
    hide Two, TextBefore;
    var sa, sb := Two(a.second), Two(b.second);
    var ma, mb := Two(a.minute) + (":" + sa), Two(b.minute) + (":" + sb);
    assert TimeText(a) == Two(a.hour) + (":" + ma);
    assert TimeText(b) == Two(b.hour) + (":" + mb);
    TwoThen(a.hour, b.hour, ":" + ma, ":" + mb);
    SameThen(":", ma, mb);
    TwoThen(a.minute, b.minute, ":" + sa, ":" + sb);
    SameThen(":", sa, sb);
    TwoOrder(a.second, b.second);
  }

  predicate IsSeparator(sep: char) {
    sep == ' ' || sep == 'T'
  }

  /** When the text of a stamp is after the text of the clock: a later date, or
      the same date and either the 'T' form or a later time. */
  lemma {:induction false} TextAfterClockIff(clock: Stamp, t: Stamp, sep: char)
    requires IsClock(clock) && IsStamp(t) && IsSeparator(sep)
    ensures TextBefore(ClockText(clock), Text(t, sep))
            <==> DateBefore(clock, t)
                 || (SameDate(clock, t) && (sep == 'T' || TextBefore(TimeText(clock), TimeText(t))))
  {
    DateTextOrder(clock, t);
    TextBeforeSplits(DateText(clock), DateText(t), " " + TimeText(clock), [sep] + TimeText(t));
    if sep == ' ' {
      SameThen(" ", TimeText(clock), TimeText(t));
    } else {
      assert (" " + TimeText(clock))[0] < ([sep] + TimeText(t))[0];
    }
  }

  /** The SQL comparison never drops a stamp in the future, in either form. */
  lemma {:induction false} FutureTextIsKept(clock: Stamp, t: Stamp, sep: char)
    requires IsClock(clock) && IsStamp(t) && IsSeparator(sep)
    requires Seconds(t) > Seconds(clock)
    ensures TextBefore(ClockText(clock), Text(t, sep))
  {
    LaterThanClock(clock, t);
    TextAfterClockIff(clock, t, sep);
    TimeTextOrder(clock, t);
    hide TextBefore, Seconds;
  }

  /** In the canonical form the SQL comparison is the comparison of times. */
  lemma {:induction false} CanonicalTextIsTimeOrder(clock: Stamp, t: Stamp)
    requires IsClock(clock) && IsClock(t)
    ensures TextBefore(ClockText(clock), Text(t, ' ')) <==> Seconds(t) > Seconds(clock)
  {
    LaterThanClock(clock, t);
    TextAfterClockIff(clock, t, ' ');
    TimeTextOrder(clock, t);
    DateOrder(clock, t);
    SameDay(clock, t);
    hide TextBefore, Day;
  }
}
