/** Date-only strings, their days, and why comparing the strings compares the days. */
module Calendar {
  import Strings
  import opened Digits

  const MAX_YEAR: nat := 9999

  predicate IsLeap(y: nat) {
    y % 4 == 0 && (y % 100 != 0 || y % 400 == 0)
  }

  function DaysInMonth(y: nat, m: nat): nat {
    if m == 2 then (if IsLeap(y) then 29 else 28)
    else if m == 4 || m == 6 || m == 9 || m == 11 then 30
    else 31
  }

  datatype Date = Date(y: nat, m: nat, d: nat)
  {
    predicate Proper() {
      1 <= m <= 12 && 1 <= d <= DaysInMonth(y, m)
    }

    /** Four digits are enough for the year. */
    predicate Valid() {
      Proper() && y <= MAX_YEAR
    }
  }

  /** Days from the start of year `y` to the start of month `m`. */
  function DaysBeforeMonth(y: nat, m: nat): nat
    requires 1 <= m <= 13
  {
    if m == 1 then 0 else DaysBeforeMonth(y, m - 1) + DaysInMonth(y, m - 1)
  }

  /** Days from the start of year 0 to the start of year `y`. */
  function DaysBeforeYear(y: nat): nat {
    if y == 0 then 0 else DaysBeforeYear(y - 1) + DaysBeforeMonth(y - 1, 13)
  }

  function DayNumber(date: Date): nat
    requires date.Proper()
  {
    DaysBeforeYear(date.y) + DaysBeforeMonth(date.y, date.m) + date.d - 1
  }

  /** The days of the years 0 to 9999. */
  const END_OF_TIME: nat := 3652425

  lemma {:induction false} MonthTotals(y: nat)
    ensures DaysBeforeMonth(y, 13) == 365 + if IsLeap(y) then 1 else 0
  {
    assert DaysBeforeMonth(y, 4) == 90 + if IsLeap(y) then 1 else 0 by {
      assert DaysBeforeMonth(y, 2) == 31;
    }
    assert DaysBeforeMonth(y, 7) == DaysBeforeMonth(y, 4) + 91 by {
      assert DaysBeforeMonth(y, 6) == DaysBeforeMonth(y, 4) + 61;
    }
    assert DaysBeforeMonth(y, 10) == DaysBeforeMonth(y, 7) + 92 by {
      assert DaysBeforeMonth(y, 9) == DaysBeforeMonth(y, 7) + 62;
    }
    assert DaysBeforeMonth(y, 12) == DaysBeforeMonth(y, 10) + 61;
  }

  /** The leap days before year `y`: one every four years, but only three centuries in four. */
  function LeapDays(y: nat): int {
    (y + 3) / 4 - (y + 99) / 100 + (y + 399) / 400
  }

  /** The Gregorian count: 365 days a year and the leap days. */
  lemma {:induction false} YearCount(y: nat)
    ensures DaysBeforeYear(y) == 365 * y + LeapDays(y)
  {
    if y > 0 {
      hide LeapDays, IsLeap, DaysBeforeMonth;
      var z := y - 1;
      YearCount(z);
      MonthTotals(z);
      LeapStep(z);
      assert DaysBeforeYear(y) == DaysBeforeYear(z) + DaysBeforeMonth(z, 13);
      hide DaysBeforeYear;
    }
  }

  /** One leap day more after a leap year. */
  lemma {:induction false} LeapStep(z: nat)
    ensures LeapDays(z + 1) == LeapDays(z) + if IsLeap(z) then 1 else 0
  {
    Quarters(z, 4);
    Quarters(z, 100);
    Quarters(z, 400);
    HundredsAreFours(z);
  }

  /** Rounded up, a quotient grows just after a multiple. */
  lemma {:induction false} Quarters(z: nat, n: nat)
    requires n > 0
    ensures (z + n) / n == (z + n - 1) / n + if z % n == 0 then 1 else 0
  {
    var q, r := z / n, z % n;
    assert z + n == n * (q + 1) + r;
    QuotientIs(z + n, n, q + 1, r);
    if r == 0 {
      QuotientIs(z + n - 1, n, q, n - 1);
    } else {
      QuotientIs(z + n - 1, n, q + 1, r - 1);
    }
  }

  /** Division by its definition. */
  lemma {:induction false} QuotientIs(a: nat, n: nat, q: nat, r: nat)
    requires r < n && a == n * q + r
    ensures a / n == q && a % n == r
  {
    var e := a / n - q;
    assert a == n * (a / n) + a % n;
    assert n * e == n * (a / n) - n * q;
    Multiples(n, e);
  }

  lemma {:induction false} Multiples(n: nat, e: int)
    ensures e > 0 ==> n * e >= n
    ensures e < 0 ==> n * e + n <= 0
  {
    if e > 0 {
      assert n * (e - 1) >= 0;
    } else if e < 0 {
      assert n * (-e - 1) >= 0;
    }
  }

  lemma {:induction false} HundredsAreFours(z: nat)
    ensures z % 400 == 0 ==> z % 100 == 0
    ensures z % 100 == 0 ==> z % 4 == 0
  {
    if z % 400 == 0 {
      QuotientIs(z, 100, 4 * (z / 400), 0);
    }
    if z % 100 == 0 {
      QuotientIs(z, 4, 25 * (z / 100), 0);
    }
  }

  // ----- from a day back to its date

  lemma {:induction false} MonthStarts(y: nat, m: nat, n: nat)
    requires 1 <= m < n <= 13
    ensures DaysBeforeMonth(y, m) + DaysInMonth(y, m) <= DaysBeforeMonth(y, n)
    decreases n
  {
    if m + 1 < n {
      MonthStarts(y, m, n - 1);
    }
  }

  lemma {:induction false} YearStarts(y: nat, z: nat)
    requires y < z
    ensures DaysBeforeYear(y) + DaysBeforeMonth(y, 13) <= DaysBeforeYear(z)
    decreases z
  {
    if y + 1 < z {
      YearStarts(y, z - 1);
    }
  }

  function MonthFrom(y: nat, r: nat, m: nat): (month: nat)
    requires 1 <= m <= 12 && DaysBeforeMonth(y, m) <= r < DaysBeforeMonth(y, 13)
    ensures m <= month <= 12 && DaysBeforeMonth(y, month) <= r < DaysBeforeMonth(y, month + 1)
    decreases 12 - m
  {
    if r < DaysBeforeMonth(y, m + 1) then m else MonthFrom(y, r, m + 1)
  }

  lemma {:induction false} YearGrows(y: nat)
    ensures DaysBeforeYear(y) < DaysBeforeYear(y + 1)
  {
    MonthTotals(y);
    hide DaysBeforeMonth;
  }

  function YearFrom(n: nat, y: nat): (year: nat)
    requires DaysBeforeYear(y) <= n
    ensures DaysBeforeYear(year) <= n < DaysBeforeYear(year + 1)
    decreases n - DaysBeforeYear(y)
  {
    YearGrows(y);
    if n < DaysBeforeYear(y + 1) then y else YearFrom(n, y + 1)
  }

  function DateOf(n: nat): (date: Date)
    ensures date.Proper() && DayNumber(date) == n
    ensures date.Valid() <==> n < END_OF_TIME
  {
    var y := YearFrom(n, 0);
    var r := n - DaysBeforeYear(y);
    var m := MonthFrom(y, r, 1);
    YearsEnd(y);
    Date(y, m, r - DaysBeforeMonth(y, m) + 1)
  }

  ghost predicate Earlier(a: Date, b: Date) {
    a.y < b.y || (a.y == b.y && (a.m < b.m || (a.m == b.m && a.d < b.d)))
  }

  lemma {:induction false} DayInMonth(date: Date)
    requires date.Proper()
    ensures DaysBeforeMonth(date.y, date.m) <= DayNumber(date) - DaysBeforeYear(date.y)
            < DaysBeforeMonth(date.y, date.m) + DaysInMonth(date.y, date.m) <= DaysBeforeMonth(date.y, 13)
    ensures DayNumber(date) < END_OF_TIME <==> date.Valid()
  {
    MonthStarts(date.y, date.m, 13);
    YearStarts(date.y, date.y + 1);
    YearsEnd(date.y);
    hide DaysInMonth;
  }

  lemma {:induction false} TenThousandYears()
    ensures DaysBeforeYear(10000) == END_OF_TIME
  {
    hide DaysBeforeYear;
    YearCount(10000);
  }

  /** The years before 10000 are the ones that end in time. */
  lemma {:induction false} YearsEnd(y: nat)
    ensures y <= MAX_YEAR ==> DaysBeforeYear(y + 1) <= END_OF_TIME
    ensures y > MAX_YEAR ==> DaysBeforeYear(y) >= END_OF_TIME
  {
    hide DaysBeforeYear;
    TenThousandYears();
    if y < MAX_YEAR {
      YearStarts(y + 1, 10000);
    } else if y > 10000 {
      YearStarts(10000, y);
    }
  }

  lemma {:induction false} EarlierIsLess(a: Date, b: Date)
    requires a.Proper() && b.Proper() && Earlier(a, b)
    ensures DayNumber(a) < DayNumber(b)
  {
    DayInMonth(a);
    DayInMonth(b);
    if a.y < b.y {
      YearStarts(a.y, b.y);
    } else if a.m < b.m {
      MonthStarts(a.y, a.m, b.m);
    }
  }

  /** Calendar order is day order, so a day has one date. */
  lemma {:induction false} DayOrder(a: Date, b: Date)
    requires a.Proper() && b.Proper()
    ensures Earlier(a, b) <==> DayNumber(a) < DayNumber(b)
    ensures a == b <==> DayNumber(a) == DayNumber(b)
  {
    if Earlier(a, b) {
      EarlierIsLess(a, b);
    } else if Earlier(b, a) {
      EarlierIsLess(b, a);
    }
  }

  // ----- YYYY-MM-DD

  function Iso(date: Date): (s: string)
    ensures |s| == 10
  {
    Pad(date.y, 4) + "-" + Pad(date.m, 2) + "-" + Pad(date.d, 2)
  }

  lemma {:induction false} DateFieldsFit(date: Date)
    requires date.Valid()
    ensures date.y < Power10(4) && date.m < Power10(2) && date.d < Power10(2)
  {
    assert Power10(2) == 100 && Power10(4) == 100 * Power10(2);
  }

  /** Section 5.1 of RFC 3339: the strings sort as the dates do. */
  lemma {:induction false} IsoOrder(a: Date, b: Date)
    requires a.Valid() && b.Valid()
    ensures Strings.Less(Iso(a), Iso(b)) <==> DayNumber(a) < DayNumber(b)
    ensures Iso(a) == Iso(b) <==> a == b
  {
    DateFieldsFit(a);
    DateFieldsFit(b);
    hide Pad, Power10;
    DayOrder(a, b);
    PadOrder(a.y, b.y, 4);
    PadOrder(a.m, b.m, 2);
    PadOrder(a.d, b.d, 2);
    IsoLess(Pad(a.y, 4), Pad(b.y, 4), Pad(a.m, 2), Pad(b.m, 2), Pad(a.d, 2), Pad(b.d, 2));
    if Iso(a) == Iso(b) {
      IsoParts(a);
      IsoParts(b);
    }
  }

  lemma {:induction false} IsoParts(date: Date)
    ensures Iso(date)[..4] == Pad(date.y, 4) && Iso(date)[5..7] == Pad(date.m, 2) && Iso(date)[8..] == Pad(date.d, 2)
  {
  }

  lemma {:induction false} IsoLess(y: string, y': string, m: string, m': string, d: string, d': string)
    requires |y| == |y'| && |m| == |m'| && |d| == |d'|
    ensures Strings.Less(y + "-" + m + "-" + d, y' + "-" + m' + "-" + d') <==>
              Strings.Less(y, y') || (y == y' && (Strings.Less(m, m') || (m == m' && Strings.Less(d, d'))))
  {
    assert y + "-" + m + "-" + d == y + ("-" + (m + ("-" + d)));
    assert y' + "-" + m' + "-" + d' == y' + ("-" + (m' + ("-" + d')));
    Strings.LessAppend(y, y', "-" + (m + ("-" + d)), "-" + (m' + ("-" + d')));
    Strings.LessAppend("-", "-", m + ("-" + d), m' + ("-" + d'));
    Strings.LessAppend(m, m', "-" + d, "-" + d');
    Strings.LessAppend("-", "-", d, d');
    Strings.Trichotomy("-", "-");
  }

  // ----- past the year 9999

  /** The last day a time value can name: a hundred million days after the start of 1970. */
  const LATEST: nat := 719528 + 100_000_000

  /** What the first ten characters of a six-digit year's ISO string keep: the year and the month. */
  function Far(date: Date): (s: string)
    ensures |s| == 10
  {
    "+" + Pad(date.y, 6) + "-" + Pad(date.m, 2)
  }

  lemma {:induction false} EpochDay()
    ensures DaysBeforeYear(1970) == 719528
  {
    hide DaysBeforeYear;
    YearCount(1970);
    assert 365 * 1970 == 719050 && 1973 / 4 == 493 && 2069 / 100 == 20 && 2369 / 400 == 5;
  }

  lemma {:induction false} FarFieldsFit(n: nat)
    requires n <= LATEST
    ensures DateOf(n).y < Power10(6) && DateOf(n).m < Power10(2)
  {
    var date := DateOf(n);
    YearCount(date.y);
    hide DaysBeforeYear, DateOf;
    assert DaysBeforeYear(date.y) <= n;
    assert (date.y + 99) / 100 <= (date.y + 3) / 4 + 25;
    assert Power10(2) == 100 && Power10(4) == 100 * Power10(2) && Power10(6) == 100 * Power10(4);
  }

  lemma {:induction false} FarParts(date: Date)
    ensures Far(date)[0] == '+' && Far(date)[7] == '-'
    ensures Far(date)[1..7] == Pad(date.y, 6) && Far(date)[8..] == Pad(date.m, 2)
  {
  }

  lemma {:induction false} DateOfDay(date: Date)
    requires date.Proper()
    ensures DateOf(DayNumber(date)) == date
  {
    DayOrder(DateOf(DayNumber(date)), date);
  }

  /** The first day of a day's month: what a year and a month alone still say. */
  function MonthStart(n: nat): nat {
    DayNumber(Date(DateOf(n).y, DateOf(n).m, 1))
  }

  /** The first and the second of a month exist. */
  lemma {:induction false} EarlyDaysExist(date: Date)
    requires date.Proper()
    ensures Date(date.y, date.m, 1).Proper() && Date(date.y, date.m, 2).Proper()
  {
    hide IsLeap;
  }

  lemma {:induction false} DayOfMonth(date: Date)
    requires date.Proper() && Date(date.y, date.m, 1).Proper()
    ensures DayNumber(date) == DayNumber(Date(date.y, date.m, 1)) + date.d - 1
  {
    hide DaysBeforeYear, DaysBeforeMonth, DaysInMonth;
  }

  lemma {:induction false} MonthStartOf(date: Date)
    requires date.Proper() && Date(date.y, date.m, 1).Proper()
    ensures MonthStart(DayNumber(date)) == DayNumber(Date(date.y, date.m, 1))
  {
    hide DayNumber, DateOf, DaysInMonth;
    DateOfDay(date);
  }

  lemma {:induction false} MonthStartIsBefore(n: nat)
    ensures MonthStart(n) <= n
    ensures MonthStart(MonthStart(n)) == MonthStart(n) == MonthStart(MonthStart(n) + 1)
    ensures n >= END_OF_TIME ==> MonthStart(n) >= END_OF_TIME
  {
    hide MonthStart, DayNumber, DateOf, DaysInMonth;
    var date := DateOf(n);
    var first, second := Date(date.y, date.m, 1), Date(date.y, date.m, 2);
    EarlyDaysExist(date);
    DayOfMonth(date);
    DayOfMonth(second);
    MonthStartOf(date);
    MonthStartOf(first);
    MonthStartOf(second);
    DayInMonth(first);
  }

  lemma {:induction false} FirstFarDay()
    ensures MonthStart(END_OF_TIME) == END_OF_TIME
  {
    TenThousandYears();
    hide DaysBeforeYear;
    assert DayNumber(Date(10000, 1, 1)) == END_OF_TIME;
    DateOfDay(Date(10000, 1, 1));
  }

  /** The day is 13 September 275760, so the month it is in has begun before. */
  lemma {:induction false} LatestDate()
    ensures MonthStart(LATEST) == LATEST - 12
  {
    hide DaysBeforeYear, DaysBeforeMonth, IsLeap;
    LatestYear();
    MonthsToSeptember(275760);
    var date := Date(275760, 9, 13);
    assert DayNumber(date) == LATEST;
    DateOfDay(date);
  }

  lemma {:induction false} LatestYear()
    ensures DaysBeforeYear(275760) == 100719272 && IsLeap(275760)
  {
    hide DaysBeforeYear;
    YearCount(275760);
    QuotientIs(275763, 4, 68940, 3);
    QuotientIs(275859, 100, 2758, 59);
    QuotientIs(276159, 400, 690, 159);
    QuotientIs(275760, 4, 68940, 0);
    QuotientIs(275760, 100, 2757, 60);
  }

  lemma {:induction false} MonthsToSeptember(y: nat)
    requires IsLeap(y)
    ensures DaysBeforeMonth(y, 9) == 244
  {
    assert DaysBeforeMonth(y, 2) == 31;
    assert DaysBeforeMonth(y, 3) == 60;
    assert DaysBeforeMonth(y, 5) == 121;
    assert DaysBeforeMonth(y, 7) == 182;
  }
}
