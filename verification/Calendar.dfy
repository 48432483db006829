/** Instants as text: the civil calendar, and the RFC 3339 form in which session times are stored and compared
    (crates/server/src/db.rs). An instant here is a whole number of seconds since 1970-01-01T00:00:00Z. */
module Calendar {
  import opened Wrappers
  import Uri

  // ---------- dates ----------

  predicate IsLeap(year: int) {
    year % 4 == 0 && (year % 100 != 0 || year % 400 == 0)
  }

  function DaysInYear(year: int): int {
    if IsLeap(year) then 366 else 365
  }

  /** Days from the first day of year 0 to the first day of a year. */
  function YearStart(year: int): int {
    365 * year + (year + 3) / 4 - (year + 99) / 100 + (year + 399) / 400
  }

  lemma Quarters(year: int)
    ensures (year + 4) / 4 == (year + 3) / 4 + if year % 4 == 0 then 1 else 0
  {
  }

  lemma Centuries(year: int)
    ensures (year + 100) / 100 == (year + 99) / 100 + if year % 100 == 0 then 1 else 0
    ensures year % 100 == 0 ==> year % 4 == 0
  {
  }

  lemma Cycles(year: int)
    ensures (year + 400) / 400 == (year + 399) / 400 + if year % 400 == 0 then 1 else 0
    ensures year % 400 == 0 ==> year % 100 == 0
  {
  }

  lemma NextYear(year: int)
    ensures YearStart(year + 1) == YearStart(year) + DaysInYear(year)
  {
    Quarters(year);
    Centuries(year);
    Cycles(year);
  }

  lemma {:induction false} YearsAreOrdered(a: int, b: int)
    requires a < b
    ensures YearStart(a) + DaysInYear(a) <= YearStart(b)
    decreases b - a
  {
    NextYear(a);
    if a + 1 < b {
      YearsAreOrdered(a + 1, b);
    }
  }

  /** Days from the first day of a year to the first day of a month; month 13 is the end of the year. */
  function MonthStart(year: int, month: int): int
    requires 1 <= month <= 13
  {
    var leap := if IsLeap(year) then 1 else 0;
    if month == 1 then 0
    else if month == 2 then 31
    else leap + (if month == 3 then 59 else if month == 4 then 90 else if month == 5 then 120
                 else if month == 6 then 151 else if month == 7 then 181 else if month == 8 then 212
                 else if month == 9 then 243 else if month == 10 then 273 else if month == 11 then 304
                 else if month == 12 then 334 else 365)
  }

  datatype Stamp = Stamp(year: int, month: int, day: int, hour: int, minute: int, second: int)

  predicate IsStamp(s: Stamp) {
    && 1 <= s.month <= 12 && 1 <= s.day <= MonthStart(s.year, s.month + 1) - MonthStart(s.year, s.month)
    && 0 <= s.hour < 24 && 0 <= s.minute < 60 && 0 <= s.second < 60
  }

  function DayNumber(s: Stamp): int
    requires 1 <= s.month <= 12
  {
    YearStart(s.year) + MonthStart(s.year, s.month) + s.day - 1
  }

  /** The day number of 1970-01-01. */
  const EPOCH: int := 719528

  function Seconds(s: Stamp): int
    requires 1 <= s.month <= 12
  {
    (DayNumber(s) - EPOCH) * 86400 + s.hour * 3600 + s.minute * 60 + s.second
  }

  // ---------- the order of dates is the order of instants ----------

  predicate DateBefore(a: Stamp, b: Stamp) {
    a.year < b.year || (a.year == b.year && (a.month < b.month || (a.month == b.month && a.day < b.day)))
  }

  predicate SameDate(a: Stamp, b: Stamp) {
    a.year == b.year && a.month == b.month && a.day == b.day
  }

  function TimeOfDay(s: Stamp): int {
    s.hour * 3600 + s.minute * 60 + s.second
  }

  predicate TimeBefore(a: Stamp, b: Stamp) {
    a.hour < b.hour || (a.hour == b.hour && (a.minute < b.minute || (a.minute == b.minute && a.second < b.second)))
  }

  /** Field by field, from the year down. */
  predicate Before(a: Stamp, b: Stamp) {
    DateBefore(a, b) || (SameDate(a, b) && TimeBefore(a, b))
  }

  lemma MonthsAreOrdered(year: int, a: int, b: int)
    requires 1 <= a < b <= 13
    ensures MonthStart(year, a + 1) <= MonthStart(year, b)
  {
  }

  lemma YearContains(s: Stamp)
    requires IsStamp(s)
    ensures YearStart(s.year) <= DayNumber(s) < YearStart(s.year) + DaysInYear(s.year)
  {
    MonthsAreOrdered(s.year, s.month, 13);
  }

  lemma DatesAreOrdered(a: Stamp, b: Stamp)
    requires IsStamp(a) && IsStamp(b) && DateBefore(a, b)
    ensures DayNumber(a) < DayNumber(b)
  {
    YearContains(a);
    YearContains(b);
    if a.year < b.year {
      YearsAreOrdered(a.year, b.year);
    } else if a.month < b.month {
      MonthsAreOrdered(a.year, a.month, b.month);
    }
  }

  lemma StampsAreOrdered(a: Stamp, b: Stamp)
    requires IsStamp(a) && IsStamp(b) && Before(a, b)
    ensures Seconds(a) < Seconds(b)
  {
    assert 0 <= TimeOfDay(a) < 86400 && 0 <= TimeOfDay(b) < 86400;
    if DateBefore(a, b) {
      DatesAreOrdered(a, b);
    }
  }

  // ---------- the date of an instant ----------

  /** The year that a day falls in, searched from 1970. */
  function YearOf(day: int): (year: int)
    ensures YearStart(year) <= day < YearStart(year) + DaysInYear(year)
  {
    NextYear(1969);
    if day < YearStart(1970) then YearBelow(day, 1969) else YearAbove(day, 1970)
  }

  function YearBelow(day: int, guess: int): (year: int)
    requires day < YearStart(guess) + DaysInYear(guess)
    ensures YearStart(year) <= day < YearStart(year) + DaysInYear(year)
    decreases YearStart(guess) + DaysInYear(guess) - day
  {
    NextYear(guess - 1);
    if YearStart(guess) <= day then guess else YearBelow(day, guess - 1)
  }

  function YearAbove(day: int, guess: int): (year: int)
    requires YearStart(guess) <= day
    ensures YearStart(year) <= day < YearStart(year) + DaysInYear(year)
    decreases day - YearStart(guess)
  {
    NextYear(guess);
    if day < YearStart(guess) + DaysInYear(guess) then guess else YearAbove(day, guess + 1)
  }

  function MonthOf(year: int, day: int, guess: int): (month: int)
    requires 1 <= guess <= 12 && MonthStart(year, guess) <= day < DaysInYear(year)
    ensures 1 <= month <= 12 && MonthStart(year, month) <= day < MonthStart(year, month + 1)
    decreases 12 - guess
  {
    if day < MonthStart(year, guess + 1) then guess else MonthOf(year, day, guess + 1)
  }

  /** The fields of an instant. */
  function StampOf(t: int): (s: Stamp)
    ensures IsStamp(s) && Seconds(s) == t
  {
    var day := t / 86400 + EPOCH;
    var rest := t % 86400;
    var year := YearOf(day);
    var ofYear := day - YearStart(year);
    var month := MonthOf(year, ofYear, 1);
    Stamp(year, month, ofYear - MonthStart(year, month) + 1, rest / 3600, rest % 3600 / 60, rest % 60)
  }

  /** Earlier instants have smaller fields. */
  lemma InstantsAreOrdered(t: int, u: int)
    requires t < u
    ensures Before(StampOf(t), StampOf(u))
  {
    var a, b := StampOf(t), StampOf(u);
    if Before(b, a) {
      StampsAreOrdered(b, a);
    }
  }

  /** The leap years of the Gregorian calendar. */
  lemma LeapYears(year: int)
    ensures YearStart(year + 1) - YearStart(year) ==
            if year % 400 == 0 || (year % 4 == 0 && year % 100 != 0) then 366 else 365
  {
    NextYear(year);
    Centuries(year);
    Cycles(year);
  }

  /** The days of the months; the twelve of them fill the year. */
  lemma DaysOfMonths(year: int, month: int)
    requires 1 <= month <= 12
    ensures MonthStart(year, month + 1) - MonthStart(year, month) ==
            if month in {4, 6, 9, 11} then 30 else if month != 2 then 31 else DaysInYear(year) - 337
    ensures MonthStart(year, 1) == 0 && MonthStart(year, 13) == DaysInYear(year)
  {
  }

  /** Fields and instants determine each other. */
  lemma StampExactly(s: Stamp)
    requires IsStamp(s)
    ensures StampOf(Seconds(s)) == s
  {
    var a := StampOf(Seconds(s));
    if Before(a, s) {
      StampsAreOrdered(a, s);
    } else if Before(s, a) {
      StampsAreOrdered(s, a);
    }
  }

  /** Instants are counted from the beginning of 1970. */
  lemma StampOfZero()
    ensures StampOf(0) == Stamp(1970, 1, 1, 0, 0, 0)
  {
    StampExactly(Stamp(1970, 1, 1, 0, 0, 0));
  }

  // ---------- text ----------

  /** `<` on texts, as SQLite compares them: byte by byte, a prefix first. All texts here are ASCII. */
  predicate Less(a: string, b: string) {
    b != "" && (a == "" || a[0] < b[0] || (a[0] == b[0] && Less(a[1..], b[1..])))
  }

  /** A number as a text of fixed width. */
  function Pad(n: nat, width: nat): (s: string)
    ensures |s| == width
  {
    if width == 0 then "" else Pad(n / 10, width - 1) + [('0' as int + n % 10) as char]
  }

  function Power(width: nat): nat {
    if width == 0 then 1 else 10 * Power(width - 1)
  }

  lemma {:induction false} LessInFront(a: string, b: string, x: string, y: string)
    requires |a| == |b| && Less(a, b)
    ensures Less(a + x, b + y) && !Less(b + y, a + x)
  {
    var u, v := a + x, b + y;
    assert u[0] == a[0] && v[0] == b[0] && u[1..] == a[1..] + x && v[1..] == b[1..] + y;
    if a[0] == b[0] {
      LessInFront(a[1..], b[1..], x, y);
    }
  }

  lemma {:induction false} LessBehind(p: string, x: string, y: string)
    ensures Less(p + x, p + y) <==> Less(x, y)
  {
    if p == "" {
      assert p + x == x && p + y == y;
    } else {
      var px, py := p + x, p + y;
      assert px[0] == p[0] && py[0] == p[0] && px[1..] == p[1..] + x && py[1..] == p[1..] + y;
      LessBehind(p[1..], x, y);
    }
  }

  /** Numbers of the same width are ordered as texts. */
  lemma {:induction false} PadIsOrdered(n: nat, m: nat, width: nat)
    requires n < m < Power(width)
    ensures Less(Pad(n, width), Pad(m, width))
  {
    if width > 0 {
      var p, q := [('0' as int + n % 10) as char], [('0' as int + m % 10) as char];
      if n / 10 < m / 10 {
        PadIsOrdered(n / 10, m / 10, width - 1);
        LessInFront(Pad(n / 10, width - 1), Pad(m / 10, width - 1), p, q);
      } else {
        LessBehind(Pad(n / 10, width - 1), p, q);
      }
    }
  }

  /** chrono prints years from 0 to 9999 with four digits, and other years with a sign. */
  function YearText(year: int): string {
    if 0 <= year <= 9999 then Pad(year, 4)
    else (if year < 0 then "-" else "+") + AtLeastFour(if year < 0 then -year else year)
  }

  function AtLeastFour(n: nat): string {
    if n <= 9999 then Pad(n, 4) else Uri.ShowNat(n)
  }

  function TimeText(s: Stamp, zone: string): string
    requires IsStamp(s)
  {
    Pad(s.hour, 2) + (":" + (Pad(s.minute, 2) + (":" + (Pad(s.second, 2) + zone))))
  }

  function DateText(s: Stamp, rest: string): string
    requires IsStamp(s)
  {
    Pad(s.month, 2) + ("-" + (Pad(s.day, 2) + ("T" + rest)))
  }

  function StampText(s: Stamp, zone: string): string
    requires IsStamp(s)
  {
    YearText(s.year) + ("-" + DateText(s, TimeText(s, zone)))
  }

  /** `to_rfc3339` writes `+00:00`; the migration writes `Z`. */
  const OFFSET := "+00:00"
  const ZULU := "Z"

  function Rfc3339(t: int, zone: string): string {
    StampText(StampOf(t), zone)
  }

  /** Digits at the fixed places of a plain text, and the zone behind them. */
  lemma TextExactly(t: int, zone: string)
    requires 0 <= StampOf(t).year <= 9999
    ensures var s := StampOf(t);
            Rfc3339(t, zone) ==
            Pad(s.year, 4) + "-" + Pad(s.month, 2) + "-" + Pad(s.day, 2) + "T"
            + Pad(s.hour, 2) + ":" + Pad(s.minute, 2) + ":" + Pad(s.second, 2) + zone
  {
  }

  lemma {:induction false} PadExactly(n: nat, width: nat)
    requires n < Power(width) && width > 0
    ensures Uri.DigitsValue(Pad(n, width)) == Some(n)
  {
    var s := Pad(n, width);
    if width > 1 {
      PadExactly(n / 10, width - 1);
      assert s[..|s| - 1] == Pad(n / 10, width - 1);
    } else {
      assert s == [('0' as int + n % 10) as char];
    }
  }

  /** The first seconds of year 0 and of year 10000. */
  const PLAIN_START: int := (YearStart(0) - EPOCH) * 86400
  const PLAIN_END: int := (YearStart(10000) - EPOCH) * 86400

  /** Years before 10000 end before the first second of year 10000, and likewise for year 0. */
  lemma PlainYears(t: int)
    ensures t < PLAIN_END <==> StampOf(t).year <= 9999
    ensures t >= PLAIN_START <==> StampOf(t).year >= 0
  {
    var s := StampOf(t);
    PlainStamps(s);
  }

  lemma PlainStamps(s: Stamp)
    requires IsStamp(s)
    ensures Seconds(s) < PLAIN_END <==> s.year <= 9999
    ensures Seconds(s) >= PLAIN_START <==> s.year >= 0
  {
    YearContains(s);
    assert 0 <= TimeOfDay(s) < 86400;
    YearBounds(s.year, 10000);
    YearBounds(s.year, 0);
  }

  lemma YearBounds(year: int, bound: int)
    ensures year < bound ==> YearStart(year) + DaysInYear(year) <= YearStart(bound)
    ensures year >= bound ==> YearStart(year) >= YearStart(bound)
  {
    if year < bound {
      YearsAreOrdered(year, bound);
    } else if year > bound {
      YearsAreOrdered(bound, year);
    }
  }

  // ---------- the order of the texts is the order of the instants ----------

  /** One text is before the other, and not the other way round. */
  predicate StrictlyLess(a: string, b: string) {
    Less(a, b) && !Less(b, a)
  }

  lemma SmallerField(n: nat, m: nat, width: nat, x: string, y: string)
    requires n < m < Power(width)
    ensures StrictlyLess(Pad(n, width) + x, Pad(m, width) + y)
  {
    PadIsOrdered(n, m, width);
    LessInFront(Pad(n, width), Pad(m, width), x, y);
  }

  lemma SameField(p: string, sep: string, x: string, y: string)
    requires StrictlyLess(x, y)
    ensures StrictlyLess(p + (sep + x), p + (sep + y))
  {
    LessBehind(sep, x, y);
    LessBehind(sep, y, x);
    LessBehind(p, sep + x, sep + y);
    LessBehind(p, sep + y, sep + x);
  }

  lemma SecondsAsText(a: nat, b: nat, zone: string, zone': string)
    requires a < b < 60
    ensures StrictlyLess(Pad(a, 2) + zone, Pad(b, 2) + zone')
  {
    assert Power(2) == 100;
    SmallerField(a, b, 2, zone, zone');
  }

  lemma TimesAsText(a: Stamp, b: Stamp, zone: string, zone': string)
    requires IsStamp(a) && IsStamp(b) && TimeBefore(a, b)
    ensures StrictlyLess(TimeText(a, zone), TimeText(b, zone'))
  {
    assert Power(2) == 100;
    var x, y := Pad(a.second, 2) + zone, Pad(b.second, 2) + zone';
    var u, v := Pad(a.minute, 2) + (":" + x), Pad(b.minute, 2) + (":" + y);
    if a.hour < b.hour {
      SmallerField(a.hour, b.hour, 2, ":" + u, ":" + v);
    } else {
      if a.minute < b.minute {
        SmallerField(a.minute, b.minute, 2, ":" + x, ":" + y);
      } else {
        SecondsAsText(a.second, b.second, zone, zone');
        SameField(Pad(a.minute, 2), ":", x, y);
      }
      SameField(Pad(a.hour, 2), ":", u, v);
    }
  }

  lemma DaysAsText(a: Stamp, b: Stamp, x: string, y: string)
    requires IsStamp(a) && IsStamp(b)
    requires a.month < b.month || (a.month == b.month && (a.day < b.day || (a.day == b.day && StrictlyLess(x, y))))
    ensures StrictlyLess(DateText(a, x), DateText(b, y))
  {
    assert Power(2) == 100;
    var u, v := Pad(a.day, 2) + ("T" + x), Pad(b.day, 2) + ("T" + y);
    if a.month < b.month {
      SmallerField(a.month, b.month, 2, "-" + u, "-" + v);
    } else {
      if a.day < b.day {
        SmallerField(a.day, b.day, 2, "T" + x, "T" + y);
      } else {
        SameField(Pad(a.day, 2), "T", x, y);
      }
      SameField(Pad(a.month, 2), "-", u, v);
    }
  }

  lemma StampsAsText(a: Stamp, b: Stamp, zone: string, zone': string)
    requires IsStamp(a) && IsStamp(b) && Before(a, b) && 0 <= a.year && b.year <= 9999
    ensures StrictlyLess(StampText(a, zone), StampText(b, zone'))
  {
    var x, y := TimeText(a, zone), TimeText(b, zone');
    var u, v := DateText(a, x), DateText(b, y);
    if a.year < b.year {
      assert Power(2) == 100 && Power(4) == 100 * Power(2);
      SmallerField(a.year, b.year, 4, "-" + u, "-" + v);
    } else {
      if SameDate(a, b) {
        TimesAsText(a, b, zone, zone');
      }
      DaysAsText(a, b, x, y);
      SameField(Pad(a.year, 4), "-", u, v);
    }
  }

  lemma {:induction false} FirstDigit(n: nat, width: nat)
    requires width > 0
    ensures '0' <= Pad(n, width)[0] <= '9'
  {
    if width > 1 {
      FirstDigit(n / 10, width - 1);
      assert Pad(n, width)[0] == Pad(n / 10, width - 1)[0];
    }
  }

  /** A text with a negative year is before every text with a plain one. */
  lemma NegativeYearAsText(a: Stamp, b: Stamp, zone: string, zone': string)
    requires IsStamp(a) && IsStamp(b) && a.year < 0 <= b.year <= 9999
    ensures StrictlyLess(StampText(a, zone), StampText(b, zone'))
  {
    FirstDigit(b.year, 4);
    assert StampText(a, zone)[0] == '-';
    assert StampText(b, zone')[0] == Pad(b.year, 4)[0];
  }

  lemma EqualField(p: string, sep: string, x: string, y: string)
    ensures Less(p + (sep + x), p + (sep + y)) <==> Less(x, y)
  {
    LessBehind(sep, x, y);
    LessBehind(p, sep + x, sep + y);
  }

  lemma SameTimeAsText(s: Stamp, x: string, y: string)
    requires IsStamp(s)
    ensures Less(TimeText(s, x), TimeText(s, y)) <==> Less(x, y)
  {
    var u, v := Pad(s.second, 2) + x, Pad(s.second, 2) + y;
    LessBehind(Pad(s.second, 2), x, y);
    EqualField(Pad(s.minute, 2), ":", u, v);
    EqualField(Pad(s.hour, 2), ":", Pad(s.minute, 2) + (":" + u), Pad(s.minute, 2) + (":" + v));
  }

  lemma SameDateAsText(s: Stamp, x: string, y: string)
    requires IsStamp(s)
    ensures Less(DateText(s, x), DateText(s, y)) <==> Less(x, y)
  {
    EqualField(Pad(s.day, 2), "T", x, y);
    EqualField(Pad(s.month, 2), "-", Pad(s.day, 2) + ("T" + x), Pad(s.day, 2) + ("T" + y));
  }

  lemma SameInstantAsText(s: Stamp, zone: string)
    requires IsStamp(s) && (zone == OFFSET || zone == ZULU)
    ensures !Less(StampText(s, zone), StampText(s, OFFSET))
  {
    var x, y := TimeText(s, zone), TimeText(s, OFFSET);
    EqualField(YearText(s.year), "-", DateText(s, x), DateText(s, y));
    SameDateAsText(s, x, y);
    SameTimeAsText(s, zone, OFFSET);
    NotLessThanItself(OFFSET);
  }

  lemma {:induction false} NotLessThanItself(s: string)
    ensures !Less(s, s)
  {
    if s != "" {
      NotLessThanItself(s[1..]);
    }
  }

  /** A stored time, written either way, compares as text with a printed cutoff exactly as the instants compare,
      whether or not the cutoff lies before year 0. */
  lemma TextOrderIsTimeOrder(t: int, zone: string, u: int)
    requires PLAIN_START <= t < PLAIN_END && u < PLAIN_END && (zone == OFFSET || zone == ZULU)
    ensures Less(Rfc3339(t, zone), Rfc3339(u, OFFSET)) <==> t < u
  {
    PlainYears(t);
    PlainYears(u);
    var a, b := StampOf(t), StampOf(u);
    if t < u {
      InstantsAreOrdered(t, u);
      StampsAsText(a, b, zone, OFFSET);
    } else if t == u {
      SameInstantAsText(a, zone);
    } else {
      InstantsAreOrdered(u, t);
      if b.year < 0 {
        NegativeYearAsText(b, a, OFFSET, zone);
      } else {
        StampsAsText(b, a, OFFSET, zone);
      }
    }
  }
}
