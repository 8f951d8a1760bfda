/** Date-only strings as days, up to the year 9999 and past it. */
module DateStrings {
  import opened Options
  import opened Calendar
  import opened Digits
  import Strings

  // ----- date-only strings

  /** The shape the format check asks for: four digits, two digits, two digits. */
  predicate IsoShape(s: string) {
    && |s| == 10 && s[4] == '-' && s[7] == '-'
    && AllDigits(s[..4]) && AllDigits(s[5..7]) && AllDigits(s[8..])
  }

  function ToDate(s: string): Date
    requires IsoShape(s)
  {
    Date(Value(s[..4]), Value(s[5..7]), Value(s[8..]))
  }

  /** A date that exists. */
  predicate IsDate(s: string) {
    IsoShape(s) && ToDate(s).Valid()
  }

  function DayOf(s: string): (n: nat)
    requires IsDate(s)
    ensures n < END_OF_TIME
  {
    DayInMonth(ToDate(s));
    DayNumber(ToDate(s))
  }

  lemma {:induction false} ToDateOfIso(date: Date)
    requires date.Valid()
    ensures IsDate(Iso(date)) && ToDate(Iso(date)) == date
  {
    DateFieldsFit(date);
    IsoParts(date);
    PadValue(date.y, 4);
    PadValue(date.m, 2);
    PadValue(date.d, 2);
  }

  lemma {:induction false} IsoOfToDate(s: string)
    requires IsDate(s)
    ensures Iso(ToDate(s)) == s
  {
    ValuePad(s[..4]);
    ValuePad(s[5..7]);
    ValuePad(s[8..]);
    assert s == s[..4] + "-" + s[5..7] + "-" + s[8..];
  }

  function AddDays(s: string, n: int): (r: string)
    requires IsDate(s) && 0 <= DayOf(s) + n < END_OF_TIME
    ensures IsDate(r) && DayOf(r) == DayOf(s) + n
  {
    var date := DateOf(DayOf(s) + n);
    ToDateOfIso(date);
    Iso(date)
  }

  /** Comparing date-only strings compares the days they name, and a day has one string. */
  lemma {:induction false} StringOrderIsDayOrder(s: string, t: string)
    requires IsDate(s) && IsDate(t)
    ensures Strings.Less(s, t) <==> DayOf(s) < DayOf(t)
    ensures s == t <==> DayOf(s) == DayOf(t)
  {
    IsoOfToDate(s);
    IsoOfToDate(t);
    IsoOrder(ToDate(s), ToDate(t));
    DayOrder(ToDate(s), ToDate(t));
  }

  lemma {:induction false} SameDay(s: string, t: string)
    requires IsDate(s) && IsDate(t) && DayOf(s) == DayOf(t)
    ensures s == t
  {
    StringOrderIsDayOrder(s, t);
  }

  // ----- past the year 9999

  /** What is left of an ISO string with a six-digit year after ten characters: sign, year and month. */
  predicate IsFar(s: string) {
    && |s| == 10 && s[0] == '+' && s[7] == '-' && AllDigits(s[1..7]) && AllDigits(s[8..])
    && 1 <= Value(s[8..]) <= 12
  }

  /** `Date.parse` of such a string, in days: a year and a month stand for the month's first day. */
  function Parsed(s: string): nat
    requires IsDate(s) || IsFar(s)
  {
    if IsDate(s) then DayOf(s) else DayNumber(Date(Value(s[1..7]), Value(s[8..]), 1))
  }

  /** `new Date(ms).toISOString().slice(0, 10)`, which throws past the last day a time value can name. */
  function DateOnly(n: nat): (s: Option<string>)
    ensures s.Some? ==> if n < END_OF_TIME then IsDate(s.value) && DayOf(s.value) == n else IsFar(s.value)
    ensures s.Some? && n >= END_OF_TIME ==> Parsed(s.value) == MonthStart(n) >= END_OF_TIME
    ensures s.None? <==> n > LATEST
  {
    if n > LATEST then None
    else if n < END_OF_TIME then
      ToDateOfIso(DateOf(n));
      Some(Iso(DateOf(n)))
    else
      FarIsParsed(n);
      Some(Far(DateOf(n)))
  }

  lemma {:induction false} FarIsParsed(n: nat)
    requires END_OF_TIME <= n <= LATEST
    ensures IsFar(Far(DateOf(n))) && Parsed(Far(DateOf(n))) == MonthStart(n) >= END_OF_TIME
  {
    hide Pad, Power10, DaysInMonth;
    var date := DateOf(n);
    FarFieldsFit(n);
    FarParts(date);
    PadValue(date.y, 6);
    PadValue(date.m, 2);
    MonthStartIsBefore(n);
    FarIsNoDate(Far(date));
  }

  function AddDaysDateOnly(s: string, n: nat): (r: Option<string>)
    requires IsDate(s) || IsFar(s)
    ensures r.Some? ==> IsDate(r.value) || IsFar(r.value)
  {
    DateOnly(Parsed(s) + n)
  }

  lemma {:induction false} StaysNear(s: string, n: nat)
    requires IsDate(s) && DayOf(s) + n < END_OF_TIME
    ensures AddDaysDateOnly(s, n) == Some(AddDays(s, n))
  {
    hide DateOf;
  }

  lemma {:induction false} FarIsNoDate(s: string)
    ensures !(IsFar(s) && IsDate(s))
  {
    if IsDate(s) {
      assert IsDigit(s[..4][0]);
    }
  }

  /** A far date sorts below every date of four digits. */
  lemma {:induction false} FarIsBelow(s: string, t: string)
    requires IsFar(s) && IsDate(t)
    ensures Strings.Less(s, t) && !Strings.Less(t, s)
  {
    assert IsDigit(t[..4][0]);
  }

  lemma {:induction false} DatesHaveShape(s: string)
    ensures IsDate(s) ==> IsoShape(s)
  {
  }

  lemma {:induction false} NearIsParsed(s: string)
    requires IsDate(s)
    ensures Parsed(s) == DayOf(s)
  {
  }

  lemma {:induction false} SomePads()
    ensures Pad(2024, 4) == "2024" && Pad(2, 2) == "02" && Pad(29, 2) == "29" && Pad(1, 2) == "01"
    ensures Pad(10000, 6) == "010000"
  {
    assert Pad(2, 1) == "2" && Pad(20, 2) == "20" && Pad(202, 3) == "202";
    assert Pad(0, 1) == "0";
    assert Pad(1, 2) == "01" && Pad(10, 3) == "010" && Pad(100, 4) == "0100" && Pad(1000, 5) == "01000";
  }

  /** A leap day, and the month that the first six-digit year begins with. */
  lemma {:induction false} SomeDates()
    ensures Iso(Date(2024, 2, 29)) == "2024-02-29" && Far(Date(10000, 1, 1)) == "+010000-01"
  {
    SomePads();
    hide Pad;
    assert "2024" + "-" + "02" + "-" + "29" == "2024-02-29";
    assert "+" + "010000" + "-" + "01" == "+010000-01";
  }
}
