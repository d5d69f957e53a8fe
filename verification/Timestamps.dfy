/**
 Timestamps: instants in whole milliseconds since 1970, and their canonical
 text `YYYY-MM-DDTHH:MM:SS.mmmZ` (sections 5.1 and 5.6 of RFC 3339), for the
 years 0000 to 9999 and without leap seconds.

 The client's collapse compares such texts, so their order has to be the order
 of the instants.
 */
module Timestamps {
  import opened Protocol

  datatype Fields = Fields(year: nat, month: nat, day: nat, hour: nat, minute: nat, second: nat, milli: nat)

  // ---------------------------------------------------------------------
  // The calendar
  // ---------------------------------------------------------------------

  predicate Leap(year: nat) {
    year % 4 == 0 && (year % 100 != 0 || year % 400 == 0)
  }

  /** Days from the start of year 0 to the start of `year`. */
  function YearStart(year: nat): nat {
    365 * year + (year + 3) / 4 - (year + 99) / 100 + (year + 399) / 400
  }

  lemma YearStep(year: nat)
    ensures YearStart(year + 1) == YearStart(year) + if Leap(year) then 366 else 365
  {
    EveryFour(year);
    EveryHundred(year);
    EveryFourHundred(year);
    LeapCases(year);
  }

  lemma LeapCases(y: nat)
    ensures (if Leap(y) then 1 else 0) ==
            (if y % 4 == 0 then 1 else 0) - (if y % 100 == 0 then 1 else 0) + (if y % 400 == 0 then 1 else 0)
  {
    if y % 400 == 0 { Centuries(y, y / 400); }
    if y % 100 == 0 { Olympiads(y, y / 100); }
  }

  lemma Centuries(y: nat, q: nat)
    requires y == 400 * q
    ensures y % 100 == 0
  {
    assert y / 100 == 4 * q;
  }

  lemma Olympiads(y: nat, q: nat)
    requires y == 100 * q
    ensures y % 4 == 0
  {
    assert y / 4 == 25 * q;
  }

  lemma EveryFour(y: nat)
    ensures (y + 4) / 4 == (y + 3) / 4 + if y % 4 == 0 then 1 else 0
  {
  }

  lemma EveryHundred(y: nat)
    ensures (y + 100) / 100 == (y + 99) / 100 + if y % 100 == 0 then 1 else 0
  {
  }

  lemma EveryFourHundred(y: nat)
    ensures (y + 400) / 400 == (y + 399) / 400 + if y % 400 == 0 then 1 else 0
  {
  }

  lemma {:induction false} YearsGrow(a: nat, b: nat)
    requires a < b
    ensures YearStart(a) + (if Leap(a) then 366 else 365) <= YearStart(b)
    decreases b
  {
    YearStep(a);
    YearStep(b - 1);
    if a == b - 1 {
    } else {
      YearsGrow(a, b - 1);
    }
  }

  function MonthDays(year: nat, month: nat): nat {
    if month == 2 then (if Leap(year) then 29 else 28)
    else if month in {4, 6, 9, 11} then 30
    else 31
  }

  /** Days from the start of the year to the start of the month. */
  function MonthStart(year: nat, month: nat): nat
    requires 1 <= month <= 13
  {
    if month == 1 then 0 else MonthStart(year, month - 1) + MonthDays(year, month - 1)
  }

  lemma {:induction false} MonthsGrow(year: nat, a: nat, b: nat)
    requires 1 <= a < b <= 13
    ensures MonthStart(year, a) + MonthDays(year, a) <= MonthStart(year, b)
    decreases b
  {
    if a == b - 1 {
    } else {
      MonthsGrow(year, a, b - 1);
    }
  }

  lemma YearIsItsMonths(year: nat)
    ensures MonthStart(year, 13) == if Leap(year) then 366 else 365
  {
    assert MonthStart(year, 2) == 31;
    assert MonthStart(year, 3) == 31 + MonthDays(year, 2);
    assert MonthStart(year, 5) == MonthStart(year, 3) + 61;
    assert MonthStart(year, 7) == MonthStart(year, 5) + 61;
    assert MonthStart(year, 9) == MonthStart(year, 7) + 62;
    assert MonthStart(year, 11) == MonthStart(year, 9) + 61;
    assert MonthStart(year, 13) == MonthStart(year, 11) + 61;
  }

  predicate ValidFields(f: Fields) {
    && f.year <= 9999 && 1 <= f.month <= 12 && 1 <= f.day <= MonthDays(f.year, f.month)
    && f.hour <= 23 && f.minute <= 59 && f.second <= 59 && f.milli <= 999
  }

  /** The day number, from the start of year 0. */
  function Day(f: Fields): nat
    requires ValidFields(f)
  {
    YearStart(f.year) + MonthStart(f.year, f.month) + f.day - 1
  }

  /** Milliseconds of the day. */
  function Clock(f: Fields): nat {
    ((f.hour * 60 + f.minute) * 60 + f.second) * 1000 + f.milli
  }

  const DAY_MILLIS: nat := 86_400_000
  /** 1970-01-01. */
  const EPOCH_DAY: nat := 719_528

  function Instant(f: Fields): Ts
    requires ValidFields(f)
  {
    (Day(f) - EPOCH_DAY) * DAY_MILLIS + Clock(f)
  }

  // ---------------------------------------------------------------------
  // Fields in order are instants in order
  // ---------------------------------------------------------------------

  predicate Earlier(f: Fields, g: Fields) {
    if f.year != g.year then f.year < g.year
    else if f.month != g.month then f.month < g.month
    else if f.day != g.day then f.day < g.day
    else if f.hour != g.hour then f.hour < g.hour
    else if f.minute != g.minute then f.minute < g.minute
    else if f.second != g.second then f.second < g.second
    else f.milli < g.milli
  }

  lemma DayInYear(f: Fields)
    requires ValidFields(f)
    ensures YearStart(f.year) <= Day(f) < YearStart(f.year + 1)
    ensures Day(f) - YearStart(f.year) < MonthStart(f.year, f.month) + MonthDays(f.year, f.month)
  {
    YearIsItsMonths(f.year);
    YearStep(f.year);
    MonthsGrow(f.year, f.month, 13);
  }

  lemma EarlierDay(f: Fields, g: Fields)
    requires ValidFields(f) && ValidFields(g)
    requires (f.year, f.month, f.day) != (g.year, g.month, g.day) && Earlier(f, g)
    ensures Day(f) < Day(g)
  {
    DayInYear(f);
    DayInYear(g);
    if f.year < g.year {
      YearsGrow(f.year, g.year);
      YearStep(f.year);
    } else if f.month < g.month {
      MonthsGrow(f.year, f.month, g.month);
    }
  }

  lemma EarlierClock(f: Fields, g: Fields)
    requires ValidFields(f) && ValidFields(g)
    requires (f.year, f.month, f.day) == (g.year, g.month, g.day)
    ensures Clock(f) < DAY_MILLIS
    ensures Earlier(f, g) ==> Clock(f) < Clock(g)
  {
  }

  lemma EarlierIsLess(f: Fields, g: Fields)
    requires ValidFields(f) && ValidFields(g) && Earlier(f, g)
    ensures Instant(f) < Instant(g)
  {
    EarlierClock(f, f);
    EarlierClock(g, g);
    if (f.year, f.month, f.day) == (g.year, g.month, g.day) {
      EarlierClock(f, g);
    } else {
      EarlierDay(f, g);
    }
  }

  /** Instants order exactly as their fields. */
  lemma EarlierExactly(f: Fields, g: Fields)
    requires ValidFields(f) && ValidFields(g)
    ensures Instant(f) < Instant(g) <==> Earlier(f, g)
    ensures Instant(f) == Instant(g) <==> f == g
  {
    if Earlier(f, g) { EarlierIsLess(f, g); }
    if Earlier(g, f) { EarlierIsLess(g, f); }
  }

  // ---------------------------------------------------------------------
  // Fields of an instant
  // ---------------------------------------------------------------------

  function FirstInstant(): Ts { 0 - EPOCH_DAY * DAY_MILLIS }

  function EndInstant(): Ts { (YearStart(10000) - EPOCH_DAY) * DAY_MILLIS }

  predicate InRange(t: Ts) {
    FirstInstant() <= t < EndInstant()
  }

  function YearOf(day: nat, from: nat): (year: nat)
    requires from <= 9999 && YearStart(from) <= day < YearStart(10000)
    ensures year <= 9999 && YearStart(year) <= day < YearStart(year + 1)
    decreases 9999 - from
  {
    if from == 9999 || day < YearStart(from + 1) then from else YearOf(day, from + 1)
  }

  function MonthOf(year: nat, day: nat, from: nat): (month: nat)
    requires 1 <= from <= 12 && MonthStart(year, from) <= day < MonthStart(year, 13)
    ensures 1 <= month <= 12 && MonthStart(year, month) <= day < MonthStart(year, month) + MonthDays(year, month)
    decreases 12 - from
  {
    if from == 12 || day < MonthStart(year, from + 1) then from else MonthOf(year, day, from + 1)
  }

  lemma DayOfInstant(t: Ts)
    requires InRange(t)
    ensures 0 <= t / DAY_MILLIS + EPOCH_DAY < YearStart(10000)
  {
  }

  /** The clock reading of a millisecond of the day. */
  function ClockFields(c: nat): (r: (nat, nat, nat, nat))
    requires c < DAY_MILLIS
    ensures r.0 <= 23 && r.1 <= 59 && r.2 <= 59 && r.3 <= 999
    ensures ((r.0 * 60 + r.1) * 60 + r.2) * 1000 + r.3 == c
  {
    var seconds := c / 1000;
    var minutes := seconds / 60;
    (minutes / 60, minutes % 60, seconds % 60, c % 1000)
  }

  function DateFields(day: nat): (r: (nat, nat, nat))
    requires day < YearStart(10000)
    ensures r.0 <= 9999 && 1 <= r.1 <= 12 && 1 <= r.2 <= MonthDays(r.0, r.1)
    ensures YearStart(r.0) + MonthStart(r.0, r.1) + r.2 - 1 == day
  {
    var year := YearOf(day, 0);
    YearIsItsMonths(year);
    YearStep(year);
    var inYear := day - YearStart(year);
    var month := MonthOf(year, inYear, 1);
    (year, month, inYear - MonthStart(year, month) + 1)
  }

  function FieldsOf(t: Ts): (f: Fields)
    requires InRange(t)
    ensures ValidFields(f) && Instant(f) == t
  {
    DayOfInstant(t);
    var date := DateFields(t / DAY_MILLIS + EPOCH_DAY);
    var clock := ClockFields(t % DAY_MILLIS);
    Fields(date.0, date.1, date.2, clock.0, clock.1, clock.2, clock.3)
  }

  lemma YearsEnd(f: Fields)
    requires ValidFields(f)
    ensures InRange(Instant(f))
  {
    DayInYear(f);
    EarlierClock(f, f);
    if f.year < 9999 {
      YearsGrow(f.year + 1, 10000);
    }
  }

  // ---------------------------------------------------------------------
  // Text
  // ---------------------------------------------------------------------

  /** Byte order of texts. */
  predicate TextLess(a: string, b: string) {
    if |a| == 0 || |b| == 0 then |a| < |b|
    else a[0] < b[0] || (a[0] == b[0] && TextLess(a[1..], b[1..]))
  }

  lemma {:induction false} TextLessIsStrict(a: string)
    ensures !TextLess(a, a)
  {
    if |a| == 0 {
    } else {
      TextLessIsStrict(a[1..]);
    }
  }

  /** Equal-length heads decide first. */
  lemma {:induction false} HeadDecides(a: string, b: string, c: string, d: string)
    requires |a| == |c|
    ensures TextLess(a + b, c + d) <==> TextLess(a, c) || (a == c && TextLess(b, d))
  {
    if |a| > 0 {
      assert (a + b)[1..] == a[1..] + b && (c + d)[1..] == c[1..] + d;
      HeadDecides(a[1..], b, c[1..], d);
      assert a == [a[0]] + a[1..] && c == [c[0]] + c[1..];
    } else {
      assert a + b == b && c + d == d;
    }
  }

  function Power(w: nat): nat { if w == 0 then 1 else 10 * Power(w - 1) }

  function Digit(n: nat): char
    requires n < 10
  {
    '0' + n as char
  }

  function Digits(n: nat, w: nat): (s: string)
    requires n < Power(w)
    ensures |s| == w && forall i | 0 <= i < w :: '0' <= s[i] <= '9'
  {
    if w == 0 then [] else Digits(n / 10, w - 1) + [Digit(n % 10)]
  }

  predicate AllDigits(s: string) {
    forall i | 0 <= i < |s| :: '0' <= s[i] <= '9'
  }

  function Value(s: string): (n: nat)
    requires AllDigits(s)
    ensures n < Power(|s|)
  {
    if |s| == 0 then 0 else Value(s[..|s| - 1]) * 10 + (s[|s| - 1] - '0') as nat
  }

  lemma {:induction false} DigitsHaveValue(n: nat, w: nat)
    requires n < Power(w)
    ensures Value(Digits(n, w)) == n
  {
    if w == 0 {
    } else {
      DigitsHaveValue(n / 10, w - 1);
      assert Digits(n, w)[..w - 1] == Digits(n / 10, w - 1);
    }
  }

  lemma {:induction false} ValueHasDigits(s: string)
    requires AllDigits(s)
    ensures Digits(Value(s), |s|) == s
  {
    if |s| == 0 {
    } else {
      var init, last := s[..|s| - 1], s[|s| - 1];
      ValueHasDigits(init);
      DivideByTen(Value(init), (last - '0') as nat);
      assert Digit((last - '0') as nat) == last;
      assert s == init + [last];
    }
  }

  lemma DivideByTen(n: nat, d: nat)
    requires d < 10
    ensures (n * 10 + d) / 10 == n && (n * 10 + d) % 10 == d
  {
  }

  /** Fixed-width numbers order as their values. */
  lemma {:induction false} DigitsOrder(m: nat, n: nat, w: nat)
    requires m < Power(w) && n < Power(w)
    ensures TextLess(Digits(m, w), Digits(n, w)) <==> m < n
  {
    if w == 0 {
    } else {
      hide TextLess;
      DigitsOrder(m / 10, n / 10, w - 1);
      DigitsEqual(m / 10, n / 10, w - 1);
      HeadDecides(Digits(m / 10, w - 1), [Digit(m % 10)], Digits(n / 10, w - 1), [Digit(n % 10)]);
      OneDigit(m % 10, n % 10);
      TensFirst(m, n);
    }
  }

  lemma DigitsEqual(m: nat, n: nat, w: nat)
    requires m < Power(w) && n < Power(w)
    ensures Digits(m, w) == Digits(n, w) <==> m == n
  {
    DigitsHaveValue(m, w);
    DigitsHaveValue(n, w);
  }

  lemma OneDigit(a: nat, b: nat)
    requires a < 10 && b < 10
    ensures TextLess([Digit(a)], [Digit(b)]) <==> a < b
  {
  }

  lemma TensFirst(m: nat, n: nat)
    ensures m < n <==> m / 10 < n / 10 || (m / 10 == n / 10 && m % 10 < n % 10)
  {
  }

  lemma Powers()
    ensures Power(2) == 100 && Power(3) == 1000 && Power(4) == 10000
  {
    assert Power(1) == 10;
  }

  /** A number of fixed width, a separator, and the rest. */
  function Part(n: nat, w: nat, sep: string, rest: string): string
    requires n < Power(w)
  {
    Digits(n, w) + (sep + rest)
  }

  function DateText(f: Fields, rest: string): string
    requires ValidFields(f)
  {
    Powers();
    Part(f.year, 4, "-", Part(f.month, 2, "-", Part(f.day, 2, "T", rest)))
  }

  function ClockText(f: Fields): string
    requires ValidFields(f)
  {
    Powers();
    Part(f.hour, 2, ":", Part(f.minute, 2, ":", Part(f.second, 2, ".", Part(f.milli, 3, "Z", ""))))
  }

  /** `canonical_text`. */
  function CanonicalText(t: Ts): string
    requires InRange(t)
  {
    DateText(FieldsOf(t), ClockText(FieldsOf(t)))
  }

  lemma PartsOrder(m: nat, n: nat, w: nat, sep: string, a: string, b: string)
    requires m < Power(w) && n < Power(w)
    ensures TextLess(Part(m, w, sep, a), Part(n, w, sep, b)) <==> m < n || (m == n && TextLess(a, b))
  {
    DigitsOrder(m, n, w);
    DigitsEqual(m, n, w);
    HeadDecides(Digits(m, w), sep + a, Digits(n, w), sep + b);
    HeadDecides(sep, a, sep, b);
    TextLessIsStrict(sep);
  }

  lemma ClockOrder(f: Fields, g: Fields)
    requires ValidFields(f) && ValidFields(g)
    ensures TextLess(ClockText(f), ClockText(g)) <==>
            (if f.hour != g.hour then f.hour < g.hour
             else if f.minute != g.minute then f.minute < g.minute
             else if f.second != g.second then f.second < g.second
             else f.milli < g.milli)
  {
    Powers();
    var f3, g3 := Part(f.milli, 3, "Z", ""), Part(g.milli, 3, "Z", "");
    var f2, g2 := Part(f.second, 2, ".", f3), Part(g.second, 2, ".", g3);
    var f1, g1 := Part(f.minute, 2, ":", f2), Part(g.minute, 2, ":", g2);
    PartsOrder(f.milli, g.milli, 3, "Z", "", "");
    PartsOrder(f.second, g.second, 2, ".", f3, g3);
    PartsOrder(f.minute, g.minute, 2, ":", f2, g2);
    PartsOrder(f.hour, g.hour, 2, ":", f1, g1);
  }

  lemma DateOrder(f: Fields, g: Fields, a: string, b: string)
    requires ValidFields(f) && ValidFields(g)
    ensures TextLess(DateText(f, a), DateText(g, b)) <==>
            (if f.year != g.year then f.year < g.year
             else if f.month != g.month then f.month < g.month
             else if f.day != g.day then f.day < g.day
             else TextLess(a, b))
  {
    Powers();
    var f2, g2 := Part(f.day, 2, "T", a), Part(g.day, 2, "T", b);
    var f1, g1 := Part(f.month, 2, "-", f2), Part(g.month, 2, "-", g2);
    PartsOrder(f.day, g.day, 2, "T", a, b);
    PartsOrder(f.month, g.month, 2, "-", f2, g2);
    PartsOrder(f.year, g.year, 4, "-", f1, g1);
  }

  /** Canonical texts order exactly as their instants. */
  lemma {:induction false} TextOrderIsTimeOrder(s: Ts, t: Ts)
    requires InRange(s) && InRange(t)
    ensures TextLess(CanonicalText(s), CanonicalText(t)) <==> s < t
  {
    FieldsOrder(FieldsOf(s), FieldsOf(t));
    EarlierExactly(FieldsOf(s), FieldsOf(t));
  }

  lemma FieldsOrder(f: Fields, g: Fields)
    requires ValidFields(f) && ValidFields(g)
    ensures TextLess(DateText(f, ClockText(f)), DateText(g, ClockText(g))) <==> Earlier(f, g)
  {
    ClockOrder(f, g);
    DateOrder(f, g, ClockText(f), ClockText(g));
  }

  // ---------------------------------------------------------------------
  // Known dates
  // ---------------------------------------------------------------------

  lemma MonthLengths(year: nat)
    ensures [MonthDays(year, 1), MonthDays(year, 2), MonthDays(year, 3), MonthDays(year, 4),
             MonthDays(year, 5), MonthDays(year, 6), MonthDays(year, 7), MonthDays(year, 8),
             MonthDays(year, 9), MonthDays(year, 10), MonthDays(year, 11), MonthDays(year, 12)] ==
            [31, if Leap(year) then 29 else 28, 31, 30, 31, 30, 31, 31, 30, 31, 30, 31]
  {
  }

  lemma FieldsAt(f: Fields, t: Ts)
    requires ValidFields(f) && Instant(f) == t
    ensures InRange(t) && FieldsOf(t) == f
  {
    YearsEnd(f);
    EarlierExactly(f, FieldsOf(t));
  }

  lemma LastDigit(n: nat, w: nat)
    requires n < Power(w + 1)
    ensures n / 10 < Power(w) && Digits(n, w + 1) == Digits(n / 10, w) + [Digit(n % 10)]
  {
  }

  lemma MoreDigits(n: nat, w: nat, d: nat)
    requires n < Power(w) && d < 10
    ensures 10 * n + d < Power(w + 1) && Digits(10 * n + d, w + 1) == Digits(n, w) + [Digit(d)]
  {
    DivideByTen(n, d);
    LastDigit(10 * n + d, w);
  }

  lemma OneDigitText(d: nat)
    requires d < 10
    ensures d < Power(1) && Digits(d, 1) == [Digit(d)]
  {
    assert Power(0) == 1;
    LastDigit(d, 0);
  }

  /** The canonical text, digit by digit. */
  lemma CanonicalDigits(f: Fields)
    requires ValidFields(f)
    ensures Power(4) == 10000 && Power(3) == 1000 && Power(2) == 100
    ensures DateText(f, ClockText(f)) ==
            Digits(f.year, 4) + "-" + Digits(f.month, 2) + "-" + Digits(f.day, 2) + "T" + Digits(f.hour, 2) + ":"
            + Digits(f.minute, 2) + ":" + Digits(f.second, 2) + "." + Digits(f.milli, 3) + "Z"
  {
    Powers();
    hide Digits;
  }

  lemma EpochFields()
    ensures InRange(0) && FieldsOf(0) == Fields(1970, 1, 1, 0, 0, 0, 0)
  {
    var f := Fields(1970, 1, 1, 0, 0, 0, 0);
    assert Instant(f) == 0;
    FieldsAt(f, 0);
  }

  lemma LeapDayFields()
    ensures InRange(1_709_251_087_123) && FieldsOf(1_709_251_087_123) == Fields(2024, 2, 29, 23, 58, 7, 123)
  {
    var f := Fields(2024, 2, 29, 23, 58, 7, 123);
    assert MonthStart(2024, 1) == 0 && MonthStart(2024, 2) == 31;
    assert Instant(f) == 1_709_251_087_123;
    FieldsAt(f, 1_709_251_087_123);
  }

  lemma TwoDigits(a: nat, b: nat)
    requires a < 10 && b < 10
    ensures 10 * a + b < Power(2) && Digits(10 * a + b, 2) == [Digit(a), Digit(b)]
  {
    OneDigitText(a);
    MoreDigits(a, 1, b);
  }

  lemma EpochNumerals()
    ensures Power(4) == 10000 && Power(3) == 1000 && Power(2) == 100
    ensures Digits(1970, 4) == "1970" && Digits(1, 2) == "01" && Digits(0, 2) == "00" && Digits(0, 3) == "000"
  {
    Powers();
    TwoDigits(1, 9);
    MoreDigits(19, 2, 7);
    MoreDigits(197, 3, 0);
    TwoDigits(0, 1);
    TwoDigits(0, 0);
    MoreDigits(0, 2, 0);
  }

  lemma LeapYearNumeral()
    ensures Power(4) == 10000 && Digits(2024, 4) == "2024"
  {
    Powers();
    TwoDigits(2, 0);
    MoreDigits(20, 2, 2);
    MoreDigits(202, 3, 4);
  }

  lemma LeapMilliNumeral()
    ensures Power(3) == 1000 && Digits(123, 3) == "123"
  {
    Powers();
    TwoDigits(1, 2);
    MoreDigits(12, 2, 3);
  }

  lemma LeapDayNumerals()
    ensures Power(2) == 100 && Digits(2, 2) == "02" && Digits(29, 2) == "29"
    ensures Digits(23, 2) == "23" && Digits(58, 2) == "58" && Digits(7, 2) == "07"
  {
    Powers();
    hide Digits;
    TwoDigits(0, 2);
    TwoDigits(2, 9);
    TwoDigits(2, 3);
    TwoDigits(5, 8);
    TwoDigits(0, 7);
  }

  /** Instant 0 ... */
  lemma EpochText()
    ensures InRange(0) && CanonicalText(0) == "1970-01-01T00:00:00.000Z"
  {
    hide Digits, Power, DateText, ClockText, FieldsOf, InRange, ValidFields, Instant;
    EpochFields();
    EpochNumerals();
    CanonicalDigits(FieldsOf(0));
  }

  /** ... and the evening of a leap day. */
  lemma LeapDayText()
    ensures InRange(1_709_251_087_123) && CanonicalText(1_709_251_087_123) == "2024-02-29T23:58:07.123Z"
  {
    hide Digits, Power, DateText, ClockText, FieldsOf, InRange, ValidFields, Instant;
    LeapDayFields();
    LeapDayNumerals();
    LeapYearNumeral();
    LeapMilliNumeral();
    CanonicalDigits(FieldsOf(1_709_251_087_123));
  }

  // ---------------------------------------------------------------------
  // Reading it back
  // ---------------------------------------------------------------------

  /** Read a number of `w` digits and the separator after it. */
  function Read(s: string, w: nat, sep: string): Option<(nat, string)> {
    if |s| >= w + |sep| && AllDigits(s[..w]) && s[w..w + |sep|] == sep
    then Some((Value(s[..w]), s[w + |sep|..]))
    else None
  }

  lemma PartsBack(d: string, sep: string, rest: string)
    ensures var s := d + (sep + rest);
            s[..|d|] == d && s[|d|..|d| + |sep|] == sep && s[|d| + |sep|..] == rest
  {
  }

  lemma ReadBack(d: string, sep: string, rest: string)
    requires AllDigits(d)
    ensures Read(d + (sep + rest), |d|, sep) == Some((Value(d), rest))
  {
    hide AllDigits, Value;
    PartsBack(d, sep, rest);
  }

  lemma ReadPart(n: nat, w: nat, sep: string, rest: string)
    requires n < Power(w)
    ensures Read(Part(n, w, sep, rest), w, sep) == Some((n, rest))
  {
    hide Read, Value;
    DigitsHaveValue(n, w);
    ReadBack(Digits(n, w), sep, rest);
  }

  lemma ThreeParts(s: string, m: nat, n: nat)
    requires m <= n <= |s|
    ensures s == s[..m] + (s[m..n] + s[n..])
  {
  }

  lemma PartRead(s: string, w: nat, sep: string)
    requires Read(s, w, sep).Some?
    ensures var r := Read(s, w, sep).value; r.0 < Power(w) && s == Part(r.0, w, sep, r.1)
  {
    ValueHasDigits(s[..w]);
    hide Digits, Value, AllDigits;
    ThreeParts(s, w, w + |sep|);
  }

}
