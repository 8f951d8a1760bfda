/** Cycle schedules: the generating loop and its closed form. */
module Cycles {
  import opened Options
  import opened Calendar
  import opened DateStrings
  import opened Digits
  import Strings
  import Text
  import CycleNames

  const MAX_GENERATED_CYCLES: nat := 200

  datatype ScheduleInput = ScheduleInput(
    startDate: string, endDate: string, lengthDays: int, nameTemplate: string, startNumber: int)

  datatype PlannedCycle = PlannedCycle(name: string, startDate: string, endDate: string)

  datatype Problem =
    | StartNotADate | EndNotADate | EndsBeforeItStarts
    | BadLength | BadStartNumber | NoTemplate | NoToken | FirstCycleTooLong | TooManyCycles

  // ----- validating a request

  /** A request with two real dates and a length that can divide. */
  ghost predicate Datable(input: ScheduleInput) {
    IsDate(input.startDate) && IsDate(input.endDate) && input.lengthDays >= 1
  }

  /** Days in the horizon, both ends counted. */
  function Span(input: ScheduleInput): int
    requires IsDate(input.startDate) && IsDate(input.endDate)
  {
    DayOf(input.endDate) - DayOf(input.startDate) + 1
  }

  /** Days from the start of the run to the start of its `i`-th cycle. */
  function Offset(input: ScheduleInput, i: nat): int {
    i * input.lengthDays
  }

  /** `i` whole cycles end within the year 9999. */
  ghost predicate Fits(input: ScheduleInput, i: nat)
    requires IsDate(input.startDate)
  {
    DayOf(input.startDate) + Offset(input, i) <= END_OF_TIME
  }

  /** `Math.max(0, n)` */
  function AtLeastZero(n: int): nat {
    if n < 0 then 0 else n
  }

  /** How many whole cycles fit the horizon, by division. */
  function Count(input: ScheduleInput): nat
    requires Datable(input)
  {
    AtLeastZero(Span(input) / input.lengthDays)
  }

  /** The cap is reached, or the first cycle that is left out ends within the year 9999. */
  ghost predicate Contained(input: ScheduleInput)
    requires Datable(input)
  {
    Count(input) >= MAX_GENERATED_CYCLES || Fits(input, Count(input) + 1)
  }

  /** Parsing a date that no calendar has is left to the engine, and so is what hangs on it. */
  datatype Verdict = Accepted | Refused(problem: Problem) | Throws | Unsettled

  function Validate(input: ScheduleInput): Verdict {
    if !IsoShape(input.startDate) then Refused(StartNotADate)
    else if !IsoShape(input.endDate) then Refused(EndNotADate)
    else if Strings.Less(input.endDate, input.startDate) then Refused(EndsBeforeItStarts)
    else if input.lengthDays < 1 then Refused(BadLength)
    else if input.startNumber < 0 then Refused(BadStartNumber)
    else if Text.Trim(input.nameTemplate) == "" then Refused(NoTemplate)
    else if !CycleNames.HasToken(input.nameTemplate) then Refused(NoToken)
    else if !IsDate(input.startDate) then Unsettled
    else
      match AddDaysDateOnly(input.startDate, input.lengthDays - 1)
      case None => Throws
      case Some(end) =>
        if Strings.Less(input.endDate, end) then Refused(FirstCycleTooLong)
        else if !IsDate(input.endDate) then Unsettled
        else if Count(input) > MAX_GENERATED_CYCLES then Refused(TooManyCycles)
        else Accepted
  }

  lemma {:induction false} OffsetStep(input: ScheduleInput, i: nat)
    requires input.lengthDays >= 1
    ensures Offset(input, 0) == 0 && 0 <= Offset(input, i)
    ensures Offset(input, i + 1) == Offset(input, i) + input.lengthDays
  {
  }

  /** What fits the horizon ends in time. */
  lemma {:induction false} CountedFit(input: ScheduleInput, i: nat)
    requires Datable(input) && i <= Count(input)
    ensures Fits(input, i)
  {
    hide IsDate, DayOf, Count, Offset;
    CountIsWhatFits(input, i);
    OffsetStep(input, 0);
  }

  /** Division says how many times the length can be laid down within a span. */
  lemma {:induction false} Division(k: nat, span: int, n: int)
    requires n >= 1
    ensures k <= span / n <==> k * n <= span
  {
    var q := span / n;
    assert q * n <= span < q * n + n;
    if k <= q {
      Scale(k, q, n);
    } else {
      Scale(q + 1, k, n);
      assert (q + 1) * n == q * n + n;
    }
  }

  lemma {:induction false} Scale(a: int, b: int, n: int)
    requires a <= b && n >= 1
    ensures a * n <= b * n
  {
    assert (b - a) * n >= 0;
  }

  lemma {:induction false} CountIsWhatFits(input: ScheduleInput, k: nat)
    requires Datable(input)
    ensures k <= Count(input) <==> k == 0 || Offset(input, k) <= Span(input)
  {
    hide IsDate, DayOf, Span;
    Division(k, Span(input), input.lengthDays);
  }

  /** Everything that is checked without counting days is in order. */
  ghost predicate Usable(input: ScheduleInput) {
    && IsoShape(input.startDate) && IsoShape(input.endDate) && !Strings.Less(input.endDate, input.startDate)
    && input.lengthDays >= 1 && input.startNumber >= 0
    && Text.Trim(input.nameTemplate) != "" && CycleNames.HasToken(input.nameTemplate)
  }

  /** Where a first cycle would end, as a day. */
  function FirstEnd(input: ScheduleInput): nat
    requires IsDate(input.startDate) && input.lengthDays >= 1
  {
    DayOf(input.startDate) + input.lengthDays - 1
  }

  /**
   * A usable request over real dates is accepted exactly when at most 200 whole cycles fit and either one fits or the
   * first would end after the year 9999. The check throws exactly when that day is past what a time value can name.
   * Only a date that does not exist leaves it open, and an end date only when the first cycle does not end after it.
   */
  lemma {:induction false} ValidMeansSomeFit(input: ScheduleInput)
    ensures Validate(input).Accepted? <==>
              && Usable(input) && Datable(input) && Count(input) <= 200
              && (Count(input) >= 1 || END_OF_TIME <= FirstEnd(input) <= LATEST)
    ensures Validate(input).Throws? <==> Usable(input) && IsDate(input.startDate) && FirstEnd(input) > LATEST
    ensures Validate(input).Unsettled? <==>
              && Usable(input) && !Datable(input)
              && (IsDate(input.startDate) ==>
                    && FirstEnd(input) <= LATEST
                    && !Strings.Less(input.endDate, DateOnly(FirstEnd(input)).value))
  {
    hide IsDate, DayOf, Count, Offset, DateOnly, ToDate, IsoShape, Text.Trim, CycleNames.HasToken, Strings.Less, IsFar,
      Parsed;
    DatesHaveShape(input.startDate);
    DatesHaveShape(input.endDate);
    if IsDate(input.startDate) {
      NearIsParsed(input.startDate);
      if Datable(input) {
        FirstProbe(input);
      }
    }
  }

  /** What the check of the first cycle's end finds out. */
  lemma {:induction false} FirstProbe(input: ScheduleInput)
    requires Datable(input)
    ensures AddDaysDateOnly(input.startDate, input.lengthDays - 1).None? <==> FirstEnd(input) > LATEST
    ensures Count(input) >= 1 ==> FirstEnd(input) < END_OF_TIME
    ensures FirstEnd(input) <= LATEST ==>
              var end := AddDaysDateOnly(input.startDate, input.lengthDays - 1).value;
              Strings.Less(input.endDate, end) <==> Count(input) == 0 && FirstEnd(input) < END_OF_TIME
  {
    hide IsDate, DayOf, Count, Offset, Strings.Less, DateOnly, IsFar, Parsed;
    CountIsWhatFits(input, 1);
    OffsetStep(input, 0);
    NearIsParsed(input.startDate);
    var end := AddDaysDateOnly(input.startDate, input.lengthDays - 1);
    if end.Some? {
      if FirstEnd(input) < END_OF_TIME {
        StringOrderIsDayOrder(input.endDate, end.value);
      } else {
        FarIsBelow(end.value, input.endDate);
      }
    }
  }

  // ----- generating

  /** The closed form of the `i`-th cycle. */
  function CycleAt(input: ScheduleInput, i: nat): PlannedCycle
    requires Datable(input) && input.startNumber >= 0 && Fits(input, i + 1)
  {
    OffsetStep(input, i);
    PlannedCycle(
      CycleNames.NameAt(input.nameTemplate, input.startNumber + i),
      AddDays(input.startDate, Offset(input, i)),
      AddDays(input.startDate, Offset(input, i) + input.lengthDays - 1))
  }

  /** A value, an exception, or what depends on how the engine parses a date that does not exist. */
  datatype Outcome<T> = Known(value: T) | Thrown | EngineDecides

  type Schedule = Outcome<seq<PlannedCycle>>

  function After(cycles: seq<PlannedCycle>, rest: Schedule): Schedule {
    match rest
    case Known(more) => Known(cycles + more)
    case Thrown => Thrown
    case EngineDecides => EngineDecides
  }

  /** The loop from the moment when `k` cycles are planned. */
  function Walk(input: ScheduleInput, cursor: string, k: nat): Schedule
    requires input.lengthDays >= 1 && input.startNumber >= 0 && (IsDate(cursor) || IsFar(cursor))
    decreases MAX_GENERATED_CYCLES - k
  {
    if k >= MAX_GENERATED_CYCLES then Known([])
    else
      match AddDaysDateOnly(cursor, input.lengthDays - 1)
      case None => Thrown
      case Some(end) =>
        if Strings.Less(input.endDate, end) then Known([])
        else
          match AddDaysDateOnly(end, 1)
          case None => Thrown
          case Some(next) =>
            After([PlannedCycle(CycleNames.NameAt(input.nameTemplate, input.startNumber + k), cursor, end)],
                  Walk(input, next, k + 1))
  }

  function ScheduleOf(input: ScheduleInput): Schedule {
    match Validate(input)
    case Refused(_) => Known([])
    case Throws => Thrown
    case Unsettled => EngineDecides
    case Accepted => Walk(input, input.startDate, 0)
  }

  lemma {:induction false} AfterAfter(a: seq<PlannedCycle>, b: seq<PlannedCycle>, rest: Schedule)
    ensures After(a, After(b, rest)) == After(a + b, rest) && After([], rest) == rest
  {
    if rest.Known? {
      assert a + (b + rest.value) == a + b + rest.value;
      assert [] + rest.value == rest.value;
    }
  }

  method GenerateCycleSchedule(input: ScheduleInput) returns (outcome: Schedule)
    ensures outcome == ScheduleOf(input)
  {
    hide IsDate, IsFar, AddDaysDateOnly, Validate, Strings.Less, CycleNames.ReplaceToken, After, Usable;
    ValidMeansSomeFit(input);
    var verdict := Validate(input);
    if verdict.Refused? {
      return Known([]);
    }
    if verdict.Throws? {
      return Thrown;
    }
    if verdict.Unsettled? {
      return EngineDecides;
    }
    assert input.lengthDays >= 1 && input.startNumber >= 0 && IsDate(input.startDate) by {
      UsableFields(input);
    }
    var planned := [];
    var cursor := input.startDate;
    var number := input.startNumber;
    AfterAfter([], [], Walk(input, cursor, 0));
    while |planned| < MAX_GENERATED_CYCLES
      invariant IsDate(cursor) || IsFar(cursor)
      invariant number == input.startNumber + |planned|
      invariant After(planned, Walk(input, cursor, |planned|)) == Walk(input, input.startDate, 0)
    {
      var end := AddDaysDateOnly(cursor, input.lengthDays - 1);
      AfterStops(planned);
      if end.None? {
        return Thrown;
      }
      if Strings.Less(input.endDate, end.value) {
        return Known(planned);
      }
      var c := PlannedCycle(CycleNames.ReplaceToken(input.nameTemplate, Decimal(number)), cursor, end.value);
      var next := AddDaysDateOnly(end.value, 1);
      if next.None? {
        return Thrown;
      }
      AfterAfter(planned, [c], Walk(input, next.value, |planned| + 1));
      planned := planned + [c];
      cursor := next.value;
      number := number + 1;
    }
    AfterStops(planned);
    return Known(planned);
  }

  lemma {:induction false} UsableFields(input: ScheduleInput)
    requires Usable(input)
    ensures input.lengthDays >= 1 && input.startNumber >= 0
  {
  }

  lemma {:induction false} AfterStops(planned: seq<PlannedCycle>)
    ensures After(planned, Known([])) == Known(planned) && After(planned, Thrown) == Thrown
  {
    assert planned + [] == planned;
  }

  /** `cursor` is the first day of cycle `k`. */
  ghost predicate CursorAt(input: ScheduleInput, cursor: string, k: nat)
    requires IsDate(input.startDate)
  {
    IsDate(cursor) && DayOf(cursor) == DayOf(input.startDate) + Offset(input, k)
  }

  /** The counted cycles from the `k`-th on, by the closed form. */
  function Counted(input: ScheduleInput, k: nat): seq<PlannedCycle>
    requires Datable(input) && input.startNumber >= 0 && k <= Count(input)
    decreases Count(input) - k
  {
    if k == Count(input) then []
    else
      CountedFit(input, k + 1);
      [CycleAt(input, k)] + Counted(input, k + 1)
  }

  /** Where the loop stands once the counted cycles are planned: on a day of the calendar, or just past its end. */
  ghost predicate AtEnd(input: ScheduleInput, cursor: string)
    requires Datable(input)
  {
    || CursorAt(input, cursor, Count(input))
    || (IsFar(cursor) && Parsed(cursor) == END_OF_TIME && StartOf(input, Count(input)) == END_OF_TIME)
  }

  /** The day on which cycle `i` would start. */
  function StartOf(input: ScheduleInput, i: nat): int
    requires IsDate(input.startDate)
  {
    DayOf(input.startDate) + Offset(input, i)
  }

  /** The loop plans the counted cycles. */
  lemma {:induction false} PlansCounted(input: ScheduleInput, cursor: string, k: nat) returns (last: string)
    requires Datable(input) && input.startNumber >= 0 && k <= Count(input) <= MAX_GENERATED_CYCLES
    requires CursorAt(input, cursor, k)
    ensures AtEnd(input, last) && (IsDate(last) || IsFar(last))
    ensures Walk(input, cursor, k) == After(Counted(input, k), Walk(input, last, Count(input)))
    decreases Count(input) - k
  {
    hide IsDate, IsFar, DayOf, Parsed, Count, Offset, AddDays, AddDaysDateOnly, After, Walk, CycleAt, Fits;
    if k == Count(input) {
      last := cursor;
      AfterAfter([], [], Walk(input, cursor, k));
    } else {
      var next := OneCounted(input, cursor, k);
      if IsDate(next) {
        last := PlansCounted(input, next, k + 1);
      } else {
        last := next;
        AfterAfter([], [], Walk(input, last, k + 1));
      }
      CountedFit(input, k + 1);
      AfterAfter([CycleAt(input, k)], Counted(input, k + 1), Walk(input, last, Count(input)));
    }
  }

  /** One turn of the loop below the count. */
  lemma {:induction false} OneCounted(input: ScheduleInput, cursor: string, k: nat) returns (next: string)
    requires Datable(input) && input.startNumber >= 0 && k < Count(input) <= MAX_GENERATED_CYCLES
    requires CursorAt(input, cursor, k)
    ensures Fits(input, k + 1) && (IsDate(next) || IsFar(next))
    ensures Walk(input, cursor, k) == After([CycleAt(input, k)], Walk(input, next, k + 1))
    ensures IsDate(next) ==> CursorAt(input, next, k + 1)
    ensures !IsDate(next) ==> k + 1 == Count(input) && AtEnd(input, next)
  {
    hide IsDate, IsFar, DayOf, Parsed, Count, Offset, AddDays, AddDaysDateOnly, After, Strings.Less, CycleNames.NameAt,
      AtEnd, CycleAt;
    CountedFit(input, k + 1);
    OffsetStep(input, k);
    var end := AddDays(cursor, input.lengthDays - 1);
    StaysNear(cursor, input.lengthDays - 1);
    ProbeIsExact(input, cursor, k);
    CycleIs(input, cursor, k);
    next := NextCursor(input, end, k);
  }

  /** The day after cycle `k` is the first day of the next, or the first day past the calendar. */
  lemma {:induction false} NextCursor(input: ScheduleInput, end: string, k: nat) returns (next: string)
    requires Datable(input) && k < Count(input)
    requires IsDate(end) && DayOf(end) + 1 == DayOf(input.startDate) + Offset(input, k + 1)
    ensures AddDaysDateOnly(end, 1) == Some(next)
    ensures IsDate(next) ==> CursorAt(input, next, k + 1)
    ensures !IsDate(next) ==> k + 1 == Count(input) && AtEnd(input, next)
  {
    hide IsDate, IsFar, DayOf, Count, Offset, DateOnly, Fits, Parsed, MonthStart;
    NearIsParsed(end);
    ReachesTheEnd(input, k);
    FirstFarDay();
    next := AddDaysDateOnly(end, 1).value;
    FarIsNoDate(next);
  }

  /** Only the last counted cycle can end on the last day there is. */
  lemma {:induction false} ReachesTheEnd(input: ScheduleInput, k: nat)
    requires Datable(input) && k < Count(input)
    ensures DayOf(input.startDate) + Offset(input, k + 1) <= END_OF_TIME
    ensures DayOf(input.startDate) + Offset(input, k + 1) == END_OF_TIME ==>
              k + 1 == Count(input) && !Fits(input, k + 2)
  {
    hide IsDate, DayOf, Count, Offset;
    CountedFit(input, k + 1);
    OffsetStep(input, k + 1);
    if k + 1 < Count(input) {
      CountedFit(input, k + 2);
    }
  }

  /** The loop stops at the first cycle that the count leaves out. */
  lemma {:induction false} ProbeIsExact(input: ScheduleInput, cursor: string, k: nat)
    requires Datable(input) && CursorAt(input, cursor, k) && DayOf(cursor) + input.lengthDays <= END_OF_TIME
    ensures Strings.Less(input.endDate, AddDays(cursor, input.lengthDays - 1)) <==> Count(input) <= k
  {
    hide IsDate, DayOf, Count, Offset, AddDays, Strings.Less;
    StringOrderIsDayOrder(input.endDate, AddDays(cursor, input.lengthDays - 1));
    CountIsWhatFits(input, k + 1);
    OffsetStep(input, k);
  }

  lemma {:induction false} CycleIs(input: ScheduleInput, cursor: string, k: nat)
    requires Datable(input) && input.startNumber >= 0 && Fits(input, k + 1) && CursorAt(input, cursor, k)
    requires DayOf(cursor) + input.lengthDays <= END_OF_TIME
    ensures CycleAt(input, k) == PlannedCycle(CycleNames.NameAt(input.nameTemplate, input.startNumber + k), cursor,
                                              AddDays(cursor, input.lengthDays - 1))
  {
    hide IsDate, DayOf, Offset, AddDays, CycleNames.NameAt;
    OffsetStep(input, k);
    SameDay(AddDays(input.startDate, Offset(input, k)), cursor);
    SameDay(AddDays(input.startDate, Offset(input, k) + input.lengthDays - 1), AddDays(cursor, input.lengthDays - 1));
  }

  /** The day on which the loop's `i`-th cycle past the counted ones ends: months only from the second on. */
  function LateEnd(input: ScheduleInput, i: nat): nat
    requires Datable(input)
  {
    if i == 0 then AtLeastZero(StartOf(input, Count(input)) + input.lengthDays - 1)
    else MonthStart(LateEnd(input, i - 1)) + input.lengthDays - 1
  }

  /** None of these days, through the last cycle the cap allows, is past what a time value can name. */
  ghost predicate NeverThrows(input: ScheduleInput, i: nat)
    requires Datable(input)
  {
    forall j: nat :: i <= j && Count(input) + j < MAX_GENERATED_CYCLES ==> LateEnd(input, j) <= LATEST
  }

  ghost predicate EndsLate(input: ScheduleInput, i: nat, c: PlannedCycle)
    requires Datable(input)
  {
    LateEnd(input, i) >= END_OF_TIME && DateOnly(LateEnd(input, i)) == Some(c.endDate)
  }

  /** Once a probe is past the year 9999, every further cycle is planned, and ends past it. */
  lemma {:induction false} RunsAway(input: ScheduleInput, cursor: string, i: nat)
    requires Datable(input) && input.startNumber >= 0 && Count(input) + i <= MAX_GENERATED_CYCLES
    requires (IsDate(cursor) || IsFar(cursor)) && LateEnd(input, i) >= END_OF_TIME
    requires Parsed(cursor) + input.lengthDays - 1 == LateEnd(input, i)
    ensures var rest := Walk(input, cursor, Count(input) + i);
            && (NeverThrows(input, i) ==>
                  && rest.Known? && |rest.value| == MAX_GENERATED_CYCLES - Count(input) - i
                  && forall j :: 0 <= j < |rest.value| ==> EndsLate(input, i + j, rest.value[j]))
            && (!NeverThrows(input, i) ==> rest.Thrown?)
    decreases MAX_GENERATED_CYCLES - i
  {
    hide IsDate, IsFar, DayOf, Parsed, DateOnly, Strings.Less, CycleNames.NameAt, Count, LateEnd, MonthStart;
    if Count(input) + i < MAX_GENERATED_CYCLES {
      LaterThrows(input, i);
      if LateEnd(input, i) <= LATEST {
        var end, next := OneLate(input, cursor, i);
        RunsAway(input, next, i + 1);
        var later := Walk(input, next, Count(input) + i + 1);
        if later.Known? {
          var name := CycleNames.NameAt(input.nameTemplate, input.startNumber + Count(input) + i);
          var c := PlannedCycle(name, cursor, end);
          LaterEnds(input, i, c, later.value);
        }
      }
    }
  }

  lemma {:induction false} LaterThrows(input: ScheduleInput, i: nat)
    requires Datable(input) && Count(input) + i < MAX_GENERATED_CYCLES
    ensures NeverThrows(input, i) <==> LateEnd(input, i) <= LATEST && NeverThrows(input, i + 1)
  {
    hide IsDate, Count, LateEnd;
  }

  lemma {:induction false} LaterEnds(input: ScheduleInput, i: nat, c: PlannedCycle, later: seq<PlannedCycle>)
    requires Datable(input) && EndsLate(input, i, c)
    requires forall j :: 0 <= j < |later| ==> EndsLate(input, i + 1 + j, later[j])
    ensures forall j :: 0 <= j < |[c] + later| ==> EndsLate(input, i + j, ([c] + later)[j])
  {
    hide IsDate, EndsLate;
    var all := [c] + later;
    forall j | 0 <= j < |all|
      ensures EndsLate(input, i + j, all[j])
    {
      if j > 0 {
        assert all[j] == later[j - 1] && i + 1 + (j - 1) == i + j;
      }
    }
  }

  /** One turn of the loop past the counted cycles: the next one starts in the month this one ends in. */
  lemma {:induction false} OneLate(input: ScheduleInput, cursor: string, i: nat) returns (end: string, next: string)
    requires Datable(input) && input.startNumber >= 0 && Count(input) + i < MAX_GENERATED_CYCLES
    requires (IsDate(cursor) || IsFar(cursor)) && END_OF_TIME <= LateEnd(input, i) <= LATEST
    requires Parsed(cursor) + input.lengthDays - 1 == LateEnd(input, i)
    ensures DateOnly(LateEnd(input, i)) == Some(end) && IsFar(next)
    ensures LateEnd(input, i + 1) >= END_OF_TIME && Parsed(next) + input.lengthDays - 1 == LateEnd(input, i + 1)
    ensures var name := CycleNames.NameAt(input.nameTemplate, input.startNumber + Count(input) + i);
            var c := PlannedCycle(name, cursor, end);
            Walk(input, cursor, Count(input) + i) == After([c], Walk(input, next, Count(input) + i + 1))
  {
    hide IsDate, IsFar, DayOf, Parsed, DateOnly, Strings.Less, CycleNames.NameAt, Count, MonthStart, After;
    var e := LateEnd(input, i);
    end := DateOnly(e).value;
    FarIsBelow(end, input.endDate);
    MonthStartIsBefore(e);
    LatestDate();
    MonthStartIsBefore(LATEST);
    next := DateOnly(MonthStart(e) + 1).value;
  }

  /** Accepted and contained, the loop plans exactly the counted cycles. */
  lemma {:induction false} PlansExactlyCounted(input: ScheduleInput)
    requires Validate(input).Accepted? && Datable(input) && Contained(input)
    ensures input.startNumber >= 0 && ScheduleOf(input) == Known(Counted(input, 0))
  {
    hide IsDate, IsFar, DayOf, Parsed, Count, Offset, AddDaysDateOnly, Strings.Less, Validate, Walk, After, Counted;
    ValidMeansSomeFit(input);
    StartsAtZero(input);
    var last := PlansCounted(input, input.startDate, 0);
    StopsAtCount(input, last);
    AfterStops(Counted(input, 0));
  }

  lemma {:induction false} StartsAtZero(input: ScheduleInput)
    requires Datable(input)
    ensures CursorAt(input, input.startDate, 0)
  {
    hide IsDate, DayOf;
  }

  lemma {:induction false} ContainedCursor(input: ScheduleInput, cursor: string)
    requires Datable(input) && Contained(input) && AtEnd(input, cursor) && Count(input) < MAX_GENERATED_CYCLES
    ensures CursorAt(input, cursor, Count(input)) && IsDate(cursor)
    ensures DayOf(cursor) + input.lengthDays <= END_OF_TIME
  {
    hide IsDate, IsFar, DayOf, Parsed, Count, Offset;
    OffsetStep(input, Count(input));
  }

  lemma {:induction false} StopsAtCount(input: ScheduleInput, cursor: string)
    requires Datable(input) && input.startNumber >= 0 && Contained(input) && AtEnd(input, cursor)
    ensures Walk(input, cursor, Count(input)) == Known([])
  {
    hide IsDate, IsFar, DayOf, Parsed, Count, AddDays, AddDaysDateOnly, Strings.Less, CursorAt, AtEnd, Contained;
    if Count(input) < MAX_GENERATED_CYCLES {
      ContainedCursor(input, cursor);
      StaysNear(cursor, input.lengthDays - 1);
      ProbeIsExact(input, cursor, Count(input));
    }
  }

  /**
   * Accepted and not contained, the loop plans the counted cycles and then fills up, to the cap, with cycles that end
   * past the year 9999, on days that are known exactly; it throws exactly when one of these is past the last day.
   */
  lemma {:induction false} PlansPastTheEnd(input: ScheduleInput)
    requires Validate(input).Accepted? && Datable(input) && !Contained(input)
    ensures input.startNumber >= 0 && |Counted(input, 0)| == Count(input) < MAX_GENERATED_CYCLES
    ensures !NeverThrows(input, 0) ==> ScheduleOf(input).Thrown?
    ensures NeverThrows(input, 0) ==>
              && ScheduleOf(input).Known? && |ScheduleOf(input).value| == 200
              && Counted(input, 0) <= ScheduleOf(input).value
              && forall j :: Count(input) <= j < MAX_GENERATED_CYCLES ==>
                   EndsLate(input, j - Count(input), ScheduleOf(input).value[j])
  {
    hide IsDate, IsFar, DayOf, Parsed, Count, Offset, AddDaysDateOnly, Strings.Less, Validate, Walk, Counted, LateEnd,
      EndsLate, NeverThrows;
    ValidMeansSomeFit(input);
    NotContained(input);
    StartsAtZero(input);
    var last := PlansCounted(input, input.startDate, 0);
    CountedLength(input, 0);
    EndEscapes(input, last);
    RunsAway(input, last, 0);
    if NeverThrows(input, 0) {
      var late, all := Walk(input, last, Count(input)).value, ScheduleOf(input).value;
      assert all == Counted(input, 0) + late;
      forall j | Count(input) <= j < MAX_GENERATED_CYCLES
        ensures EndsLate(input, j - Count(input), all[j])
      {
        assert all[j] == late[j - Count(input)];
        assert EndsLate(input, 0 + (j - Count(input)), late[j - Count(input)]);
      }
    }
  }

  lemma {:induction false} EndEscapes(input: ScheduleInput, cursor: string)
    requires Datable(input) && !Contained(input) && AtEnd(input, cursor)
    ensures (IsDate(cursor) || IsFar(cursor)) && LateEnd(input, 0) >= END_OF_TIME
    ensures Parsed(cursor) + input.lengthDays - 1 == LateEnd(input, 0)
  {
    hide IsDate, IsFar, DayOf, Count, Offset;
    OffsetStep(input, Count(input));
    if IsDate(cursor) {
      NearIsParsed(cursor);
      FarIsNoDate(cursor);
    }
  }

  /** A bound that is quick to check: two hundred lengths from the start are not past the last day there is. */
  lemma {:induction false} ShortCyclesNeverThrow(input: ScheduleInput)
    requires Datable(input) && StartOf(input, MAX_GENERATED_CYCLES) <= LATEST + 1
    ensures NeverThrows(input, 0)
  {
    hide IsDate, DayOf, Count, Offset, LateEnd;
    forall j: nat | Count(input) + j < MAX_GENERATED_CYCLES
      ensures LateEnd(input, j) <= LATEST
    {
      LateEndIsBounded(input, j);
      OffsetsGrow(input, Count(input) + j + 1, MAX_GENERATED_CYCLES);
    }
  }

  lemma {:induction false} LateEndIsBounded(input: ScheduleInput, j: nat)
    requires Datable(input)
    ensures LateEnd(input, j) + 1 <= StartOf(input, Count(input) + j + 1)
    decreases j
  {
    hide IsDate, DayOf, Count, Offset, MonthStart;
    OffsetStep(input, Count(input) + j);
    if j > 0 {
      LateEndIsBounded(input, j - 1);
      MonthStartIsBefore(LateEnd(input, j - 1));
    }
  }

  lemma {:induction false} OffsetsGrow(input: ScheduleInput, i: nat, j: nat)
    requires input.lengthDays >= 1 && i <= j
    ensures Offset(input, i) <= Offset(input, j)
  {
    assert (j - i) * input.lengthDays >= 0;
  }

  lemma {:induction false} CountedLength(input: ScheduleInput, k: nat)
    requires Datable(input) && input.startNumber >= 0 && k <= Count(input)
    ensures |Counted(input, k)| == Count(input) - k
    decreases Count(input) - k
  {
    hide IsDate, DayOf, Count, CycleAt;
    if k < Count(input) {
      CountedLength(input, k + 1);
    }
  }

  lemma {:induction false} CountedAt(input: ScheduleInput, k: nat, i: nat)
    requires Datable(input) && input.startNumber >= 0 && k + i < Count(input)
    ensures Fits(input, k + i + 1) && i < |Counted(input, k)| && Counted(input, k)[i] == CycleAt(input, k + i)
    decreases i
  {
    hide IsDate, DayOf, Count, CycleAt, Offset;
    CountedFit(input, k + i + 1);
    CountedLength(input, k);
    if i > 0 {
      CountedAt(input, k + 1, i - 1);
    }
  }

  ghost predicate WithinHorizon(input: ScheduleInput, cycles: seq<PlannedCycle>)
    requires IsDate(input.endDate)
  {
    forall i :: 0 <= i < |cycles| ==>
      IsDate(cycles[i].endDate) && DayOf(cycles[i].endDate) <= DayOf(input.endDate)
  }

  /**
   * No planned cycle ends after the requested end exactly when the schedule is contained: the first cycle the count
   * leaves out would still end within the year 9999, or the cap leaves no room for it.
   */
  lemma {:induction false} HorizonExactly(input: ScheduleInput)
    requires Validate(input).Accepted?
    ensures Datable(input)
    ensures ScheduleOf(input).Known? && WithinHorizon(input, ScheduleOf(input).value) <==> Contained(input)
  {
    hide IsDate, IsFar, DayOf, Count, Offset, Strings.Less, Validate, ScheduleOf, Counted, CycleAt, Contained;
    ValidMeansSomeFit(input);
    if Contained(input) {
      PlansExactlyCounted(input);
      forall i | 0 <= i < |Counted(input, 0)|
        ensures IsDate(Counted(input, 0)[i].endDate)
                && DayOf(Counted(input, 0)[i].endDate) <= DayOf(input.endDate)
      {
        CountedEndsInTime(input, i);
      }
    } else {
      PlansPastTheEnd(input);
      if ScheduleOf(input).Known? {
        assert EndsLate(input, 0, ScheduleOf(input).value[Count(input)]);
        FarIsNoDate(ScheduleOf(input).value[Count(input)].endDate);
      }
    }
  }

  lemma {:induction false} ContainedFits(input: ScheduleInput)
    requires Datable(input) && Contained(input) && (Count(input) >= 1 || FirstEnd(input) >= END_OF_TIME)
    ensures Count(input) >= 1 && Fits(input, Count(input))
  {
    hide IsDate, DayOf, Count, Offset;
    OffsetStep(input, 0);
    CountedFit(input, Count(input));
  }

  lemma {:induction false} NotContained(input: ScheduleInput)
    requires Datable(input) && !Contained(input)
    ensures Count(input) < MAX_GENERATED_CYCLES
  {
  }

  lemma {:induction false} CountedEndsInTime(input: ScheduleInput, i: nat)
    requires Datable(input) && input.startNumber >= 0 && i < |Counted(input, 0)|
    ensures IsDate(Counted(input, 0)[i].endDate) && DayOf(Counted(input, 0)[i].endDate) <= DayOf(input.endDate)
  {
    hide IsDate, DayOf, Count, Offset, Counted, CycleAt;
    CountedLength(input, 0);
    CountedAt(input, 0, i);
    DaysOfCycle(input, i);
    CountIsWhatFits(input, i + 1);
  }

  // ----- what a schedule is

  /** The days a cycle covers. */
  lemma {:induction false} DaysOfCycle(input: ScheduleInput, i: nat)
    requires Datable(input) && input.startNumber >= 0 && Fits(input, i + 1)
    ensures var c := CycleAt(input, i);
            && IsDate(c.startDate) && DayOf(c.startDate) == DayOf(input.startDate) + Offset(input, i)
            && IsDate(c.endDate) && DayOf(c.endDate) + 1 == DayOf(input.startDate) + Offset(input, i + 1)
  {
    hide IsDate, DayOf, Offset, AddDays, CycleNames.NameAt;
    OffsetStep(input, i);
  }

  ghost predicate Lasts(c: PlannedCycle, days: int) {
    IsDate(c.startDate) && IsDate(c.endDate) && DayOf(c.endDate) - DayOf(c.startDate) + 1 == days
  }

  ghost predicate IsDayAfter(next: string, day: string) {
    IsDate(day) && DayOf(day) + 1 < END_OF_TIME && next == AddDays(day, 1)
  }

  /** The first cycle starts on the first day, and each lasts exactly the length. */
  lemma {:induction false} CyclesLast(input: ScheduleInput, i: nat)
    requires Datable(input) && input.startNumber >= 0 && Fits(input, i + 1)
    ensures i == 0 ==> CycleAt(input, i).startDate == input.startDate
    ensures Lasts(CycleAt(input, i), input.lengthDays)
  {
    hide IsDate, DayOf, Offset, AddDays, CycleAt;
    OffsetStep(input, i);
    DaysOfCycle(input, i);
    if i == 0 {
      SameDay(CycleAt(input, i).startDate, input.startDate);
    }
  }

  /** Cycles abut: each starts the day after the one before it ends. */
  lemma {:induction false} CyclesAbut(input: ScheduleInput, i: nat)
    requires Datable(input) && input.startNumber >= 0 && Fits(input, i + 1) && Fits(input, i + 2)
    ensures IsDayAfter(CycleAt(input, i + 1).startDate, CycleAt(input, i).endDate)
  {
    hide IsDate, DayOf, Offset, AddDays, CycleAt;
    OffsetStep(input, i + 1);
    DaysOfCycle(input, i);
    DaysOfCycle(input, i + 1);
    SameDay(CycleAt(input, i + 1).startDate, AddDays(CycleAt(input, i).endDate, 1));
  }

  /** A cycle ends within the horizon exactly when it is one of the counted ones. */
  lemma {:induction false} HorizonIsRespected(input: ScheduleInput, i: nat)
    requires Datable(input) && input.startNumber >= 0 && Fits(input, i + 1)
    ensures !Strings.Less(input.endDate, CycleAt(input, i).endDate) <==> i < Count(input)
  {
    hide IsDate, DayOf, Offset, AddDays, Count, Strings.Less, CycleNames.NameAt;
    OffsetStep(input, i);
    CountIsWhatFits(input, i + 1);
    StringOrderIsDayOrder(input.endDate, CycleAt(input, i).endDate);
  }

  /** What the cadence leaves uncovered is the span modulo the length. */
  lemma {:induction false} GapIsRemainder(input: ScheduleInput)
    requires Datable(input) && input.startNumber >= 0 && Count(input) >= 1 && Fits(input, Count(input))
    ensures DayOf(input.endDate) - DayOf(CycleAt(input, Count(input) - 1).endDate) == Span(input) % input.lengthDays
  {
    hide IsDate, DayOf, AddDays, CycleNames.NameAt, Offset;
    OffsetStep(input, Count(input) - 1);
    Remainder(Span(input), input.lengthDays);
    OffsetIs(input, Count(input));
  }

  lemma {:induction false} OffsetIs(input: ScheduleInput, i: nat)
    ensures Offset(input, i) == i * input.lengthDays
  {
  }

  lemma {:induction false} Remainder(span: int, n: int)
    requires n >= 1
    ensures span == span / n * n + span % n
  {
  }

  /** The days the cadence leaves uncovered; past the year 9999 the last cycle ends too late and none are reported. */
  method CycleScheduleRemainderDays(input: ScheduleInput) returns (days: Outcome<nat>)
    ensures days.Thrown? <==> ScheduleOf(input).Thrown?
    ensures days.EngineDecides? <==> Validate(input).Unsettled?
    ensures Validate(input).Refused? ==> days == Known(0)
    ensures Validate(input).Accepted? ==>
              && Datable(input)
              && (days.Thrown? || days == Known(if Contained(input) then Span(input) % input.lengthDays else 0))
  {
    hide IsDate, IsFar, DayOf, Parsed, Count, Contained, ScheduleOf, Validate, Span, Counted, CycleAt;
    var outcome := GenerateCycleSchedule(input);
    NothingPlanned(input);
    ValidMeansSomeFit(input);
    match outcome
    case Thrown =>
      return Thrown;
    case EngineDecides =>
      return EngineDecides;
    case Known(cycles) =>
      LastCycle(input);
      if cycles == [] {
        return Known(0);
      }
      return Known(AtLeastZero(DayOf(input.endDate) - Parsed(cycles[|cycles| - 1].endDate)));
  }

  lemma {:induction false} NothingPlanned(input: ScheduleInput)
    ensures Validate(input).Refused? ==> ScheduleOf(input) == Known([])
    ensures Validate(input).Throws? ==> ScheduleOf(input) == Thrown
    ensures Validate(input).Unsettled? <==> ScheduleOf(input) == EngineDecides
  {
    hide Validate;
    ValidMeansSomeFit(input);
    if Validate(input).Accepted? {
      WalkIsSettled(input, input.startDate, 0);
    }
  }

  lemma {:induction false} WalkIsSettled(input: ScheduleInput, cursor: string, k: nat)
    requires input.lengthDays >= 1 && input.startNumber >= 0 && (IsDate(cursor) || IsFar(cursor))
    ensures !Walk(input, cursor, k).EngineDecides?
    decreases MAX_GENERATED_CYCLES - k
  {
    hide IsDate, IsFar, AddDaysDateOnly, CycleNames.NameAt, Strings.Less;
    var end := AddDaysDateOnly(cursor, input.lengthDays - 1);
    if k < MAX_GENERATED_CYCLES && end.Some? {
      var next := AddDaysDateOnly(end.value, 1);
      if next.Some? {
        WalkIsSettled(input, next.value, k + 1);
      }
    }
  }

  /** What the last planned cycle says about the days left over. */
  ghost predicate LeavesOver(input: ScheduleInput, cycles: seq<PlannedCycle>)
    requires Datable(input)
  {
    && cycles != []
    && var end := cycles[|cycles| - 1].endDate;
       && (IsDate(end) || IsFar(end))
       && AtLeastZero(DayOf(input.endDate) - Parsed(end)) ==
          if Contained(input) then Span(input) % input.lengthDays else 0
  }

  /** An accepted schedule that does not throw has a last cycle. */
  lemma {:induction false} LastCycle(input: ScheduleInput)
    requires ScheduleOf(input).Known?
    ensures Validate(input).Accepted? ==> Datable(input) && LeavesOver(input, ScheduleOf(input).value)
  {
    hide Validate, ScheduleOf, LeavesOver, Contained, Count, IsDate;
    ValidMeansSomeFit(input);
    if Validate(input).Accepted? {
      if Contained(input) {
        LastCounted(input);
      } else {
        LastLate(input);
      }
    }
  }

  lemma {:induction false} LastCounted(input: ScheduleInput)
    requires Validate(input).Accepted? && Datable(input) && Contained(input)
    ensures ScheduleOf(input).Known? && LeavesOver(input, ScheduleOf(input).value)
  {
    hide IsDate, IsFar, DayOf, Parsed, Count, Contained, ScheduleOf, Validate, Span, Counted, CycleAt;
    ValidMeansSomeFit(input);
    PlansExactlyCounted(input);
    ContainedFits(input);
    CountedLength(input, 0);
    CountedAt(input, 0, Count(input) - 1);
    DaysOfCycle(input, Count(input) - 1);
    GapIsRemainder(input);
    NearIsParsed(CycleAt(input, Count(input) - 1).endDate);
  }

  lemma {:induction false} LastLate(input: ScheduleInput)
    requires Validate(input).Accepted? && Datable(input) && !Contained(input) && ScheduleOf(input).Known?
    ensures LeavesOver(input, ScheduleOf(input).value)
  {
    hide IsDate, IsFar, DayOf, Parsed, Count, Contained, ScheduleOf, Validate, Span, Counted, NeverThrows, LateEnd,
      MonthStart, DateOnly;
    PlansPastTheEnd(input);
    var i := MAX_GENERATED_CYCLES - 1 - Count(input);
    assert EndsLate(input, i, ScheduleOf(input).value[MAX_GENERATED_CYCLES - 1]);
    MonthStartIsBefore(LateEnd(input, i));
  }

  lemma {:induction false} WalkNames(input: ScheduleInput, cursor: string, k: nat, i: nat)
    requires input.lengthDays >= 1 && input.startNumber >= 0 && (IsDate(cursor) || IsFar(cursor))
    requires Walk(input, cursor, k).Known? && i < |Walk(input, cursor, k).value|
    ensures Walk(input, cursor, k).value[i].name == CycleNames.NameAt(input.nameTemplate, input.startNumber + k + i)
    decreases i
  {
    hide IsDate, IsFar, AddDaysDateOnly, CycleNames.NameAt, Strings.Less;
    if i > 0 {
      var end := AddDaysDateOnly(cursor, input.lengthDays - 1).value;
      WalkNames(input, AddDaysDateOnly(end, 1).value, k + 1, i - 1);
    }
  }

  lemma {:induction false} PlannedName(input: ScheduleInput, i: nat)
    requires ScheduleOf(input).Known? && i < |ScheduleOf(input).value|
    ensures input.startNumber >= 0 && CycleNames.HasToken(input.nameTemplate)
    ensures ScheduleOf(input).value[i].name == CycleNames.NameAt(input.nameTemplate, input.startNumber + i)
  {
    hide IsDate, IsFar, Walk, Validate, CycleNames.HasToken, CycleNames.NameAt, Text.Trim, Strings.Less, Count;
    ValidMeansSomeFit(input);
    WalkNames(input, input.startDate, 0, i);
  }

  /** A run continued at the next number plans names that differ from each other and from every name in use. */
  lemma {:induction false} ScheduledNamesAreFresh(input: ScheduleInput, names: seq<string>)
    requires ScheduleOf(input).Known?
    requires Text.Trim(input.nameTemplate) == input.nameTemplate && input.startNumber >= 0
    requires CycleNames.IsNext(names, input.nameTemplate, input.startNumber)
    ensures var planned := ScheduleOf(input).value;
            && (forall i, j :: 0 <= i < j < |planned| ==> planned[i].name != planned[j].name)
            && (forall i, name :: 0 <= i < |planned| && name in names ==> planned[i].name != name)
  {
    hide ScheduleOf, CycleNames.IsNext, CycleNames.NameAt, CycleNames.HasToken, Text.Trim;
    var template, start: nat, planned := input.nameTemplate, input.startNumber, ScheduleOf(input).value;
    if planned != [] {
      PlannedName(input, 0);
      CycleNames.NextIsFresh(names, template, start);
    }
    forall i: nat | i < |planned|
      ensures planned[i].name == CycleNames.NameAt(template, start + i)
    {
      PlannedName(input, i);
    }
    forall i, j | 0 <= i < j < |planned|
      ensures planned[i].name != planned[j].name
    {
      CycleNames.NamesAreDistinct(template, start + i, start + j);
    }
  }

  // ----- the last days of the calendar

  lemma {:induction false} LastDecember(d: nat)
    requires 1 <= d <= 31
    ensures IsDate(Iso(Date(9999, 12, d))) && DayOf(Iso(Date(9999, 12, d))) == END_OF_TIME - 32 + d
  {
    ToDateOfIso(Date(9999, 12, d));
    hide IsDate, Iso, ToDate;
    TenThousandYears();
    YearEnd(9999);
    hide DaysBeforeYear, DaysBeforeMonth;
  }

  lemma {:induction false} YearEnd(y: nat)
    ensures DaysBeforeYear(y + 1) == DaysBeforeYear(y) + DaysBeforeMonth(y, 12) + 31
  {
  }

  lemma {:induction false} BareToken()
    ensures CycleNames.HasToken("{n}") && Text.Trim("{n}") != ""
  {
    Text.TrimIsExact("{n}");
  }

  /** The schedule is accepted and planned to the cap, and every cycle ends past the year 9999. */
  ghost predicate RunsPastTheEnd(input: ScheduleInput) {
    && Validate(input).Accepted? && Datable(input) && Count(input) == 0
    && ScheduleOf(input).Known? && |ScheduleOf(input).value| == MAX_GENERATED_CYCLES
    && (forall i :: 0 <= i < MAX_GENERATED_CYCLES ==> IsFar(ScheduleOf(input).value[i].endDate))
    && !WithinHorizon(input, ScheduleOf(input).value)
  }

  /** A fortnight that does not fit the last days of 9999, 20 to 31 December. */
  lemma {:induction false} LastDaysRunAway(input: ScheduleInput)
    requires input == ScheduleInput(Iso(Date(9999, 12, 20)), Iso(Date(9999, 12, 31)), 14, "{n}", 1)
    ensures RunsPastTheEnd(input)
  {
    LastDecember(20);
    LastDecember(31);
    BareToken();
    hide Iso, IsDate, DayOf, CycleNames.HasToken, Text.Trim, RunsPastTheEnd;
    FortnightRunsAway(input);
  }

  lemma {:induction false} FortnightRunsAway(input: ScheduleInput)
    requires IsDate(input.startDate) && DayOf(input.startDate) == END_OF_TIME - 12
    requires IsDate(input.endDate) && DayOf(input.endDate) == END_OF_TIME - 1
    requires input.lengthDays == 14 && input.startNumber >= 0
    requires Text.Trim(input.nameTemplate) != "" && CycleNames.HasToken(input.nameTemplate)
    ensures RunsPastTheEnd(input)
  {
    LastDaysCount(input);
    DatesHaveShape(input.startDate);
    DatesHaveShape(input.endDate);
    hide IsDate, IsFar, DayOf, CycleNames.HasToken, Count, Text.Trim, Validate, ScheduleOf, Contained, Strings.Less,
      IsoShape, WithinHorizon, StartOf;
    ValidMeansSomeFit(input);
    LastDaysArePlanned(input);
  }

  lemma {:induction false} LastDaysArePlanned(input: ScheduleInput)
    requires Validate(input).Accepted? && Datable(input) && Count(input) == 0 && !Contained(input)
    requires StartOf(input, MAX_GENERATED_CYCLES) <= LATEST + 1
    ensures ScheduleOf(input).Known? && |ScheduleOf(input).value| == MAX_GENERATED_CYCLES
    ensures forall i :: 0 <= i < MAX_GENERATED_CYCLES ==> IsFar(ScheduleOf(input).value[i].endDate)
    ensures !WithinHorizon(input, ScheduleOf(input).value)
  {
    hide IsDate, IsFar, Count, Validate, ScheduleOf, Contained, Counted, LateEnd, NeverThrows, DateOnly, WithinHorizon,
      StartOf;
    HorizonExactly(input);
    ShortCyclesNeverThrow(input);
    PlansPastTheEnd(input);
    forall i | 0 <= i < MAX_GENERATED_CYCLES
      ensures IsFar(ScheduleOf(input).value[i].endDate)
    {
      assert EndsLate(input, i - Count(input), ScheduleOf(input).value[i]);
    }
  }

  /** A fortnight, from twelve days before the end to the last day. */
  lemma {:induction false} LastDaysCount(input: ScheduleInput)
    requires IsDate(input.startDate) && DayOf(input.startDate) == END_OF_TIME - 12
    requires IsDate(input.endDate) && DayOf(input.endDate) == END_OF_TIME - 1 && input.lengthDays == 14
    ensures !Strings.Less(input.endDate, input.startDate)
    ensures Count(input) == 0 && !Contained(input) && END_OF_TIME <= FirstEnd(input) <= LATEST
    ensures StartOf(input, MAX_GENERATED_CYCLES) <= LATEST + 1
  {
    hide IsDate, DayOf, Strings.Less;
    StringOrderIsDayOrder(input.endDate, input.startDate);
  }

  // ----- which problem is reported

  /** Of several things wrong with a request the first in this order is reported. */
  lemma {:induction false} ProblemsInOrder(input: ScheduleInput)
    ensures var v, fields := Validate(input), IsoShape(input.startDate) && IsoShape(input.endDate);
            var ordered := fields && !Strings.Less(input.endDate, input.startDate);
            var numbers := ordered && input.lengthDays >= 1 && input.startNumber >= 0;
            && (v == Refused(StartNotADate) <==> !IsoShape(input.startDate))
            && (v == Refused(EndNotADate) <==> IsoShape(input.startDate) && !IsoShape(input.endDate))
            && (v == Refused(EndsBeforeItStarts) <==> fields && !ordered)
            && (v == Refused(BadLength) <==> ordered && input.lengthDays < 1)
            && (v == Refused(BadStartNumber) <==> ordered && input.lengthDays >= 1 && input.startNumber < 0)
            && (v == Refused(NoTemplate) <==> numbers && Text.Trim(input.nameTemplate) == "")
            && (v == Refused(NoToken) <==>
                  numbers && Text.Trim(input.nameTemplate) != "" && !CycleNames.HasToken(input.nameTemplate))
    ensures Validate(input) == Refused(TooManyCycles) ==> Usable(input) && Datable(input) && Count(input) > 200
    ensures Usable(input) && Datable(input) && Count(input) > 200 ==> Validate(input) == Refused(TooManyCycles)
    ensures Usable(input) && Datable(input) && Count(input) == 0 && FirstEnd(input) < END_OF_TIME ==>
              Validate(input) == Refused(FirstCycleTooLong)
  {
    hide IsDate, DayOf, Count, Offset, DateOnly, ToDate, IsoShape, Text.Trim, CycleNames.HasToken, Strings.Less, IsFar,
      Parsed;
    DatesHaveShape(input.startDate);
    DatesHaveShape(input.endDate);
    if Datable(input) {
      NearIsParsed(input.startDate);
      FirstProbe(input);
    }
  }
}
