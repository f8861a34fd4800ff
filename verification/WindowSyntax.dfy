/** What each text of the window language stands for, and for which texts it stands for nothing. */
module WindowSyntax {
  import opened Wrappers
  import opened Text
  import opened WindowLanguage

  /** The spellings of the days. */
  function NamedDay(name: string): Option<Weekday> {
    if name == "sun" || name == "sunday" then Some(0)
    else if name == "mon" || name == "monday" then Some(1)
    else if name == "tue" || name == "tues" || name == "tuesday" then Some(2)
    else if name == "wed" || name == "weds" || name == "wednesday" then Some(3)
    else if name == "thu" || name == "thur" || name == "thurs" || name == "thursday" then Some(4)
    else if name == "fri" || name == "friday" then Some(5)
    else if name == "sat" || name == "saturday" then Some(6)
    else None
  }

  function DayName(value: string): Option<Weekday> {
    NamedDay(Trim(Lower(value)))
  }

  /** The day a number of days after another. */
  function DayAfter(first: Weekday, n: Weekday): (day: Weekday)
    ensures day == (first + n) % 7
  {
    if first + n < 7 then first + n else first + n - 7
  }

  /** How many days forward around the week lead from one day to another. */
  function DaysForward(first: Weekday, day: Weekday): (n: Weekday)
    ensures DayAfter(first, n) == day
  {
    if day >= first then day - first else day + 7 - first
  }

  /** The days from first to last, going forward around the week. */
  function DayRange(first: Weekday, last: Weekday): seq<Weekday> {
    seq(DaysForward(first, last) + 1, i requires 0 <= i <= DaysForward(first, last) => DayAfter(first, i))
  }

  function PartDays(text: string): Result<seq<Weekday>, WindowError> {
    var part := Trim(text);
    if part == "" then Err(EmptyDayPart)
    else
      var dash := IndexOf(part, '-');
      if dash != -1 then
        match DayName(part[..dash])
        case None => Err(UnknownDay(part[..dash]))
        case Some(first) =>
          match DayName(part[dash + 1..])
          case None => Err(UnknownDay(part[dash + 1..]))
          case Some(last) => Ok(DayRange(first, last))
      else
        match DayName(part)
        case None => Err(UnknownDay(part))
        case Some(day) => Ok([day])
  }

  /** The days of all parts in order, with repetitions; the first bad part decides the error. */
  function PartsDays(parts: seq<string>): Result<seq<Weekday>, WindowError> {
    if parts == [] then Ok([])
    else
      match PartsDays(parts[..|parts| - 1])
      case Err(e) => Err(e)
      case Ok(days) =>
        match PartDays(parts[|parts| - 1])
        case Err(e) => Err(e)
        case Ok(more) => Ok(days + more)
  }

  /** The first occurrence of each element, in order. */
  function Distinct<T(==, !new)>(s: seq<T>): (r: seq<T>)
    ensures forall x :: x in r <==> x in s
    ensures Unique(r)
  {
    if s == [] then []
    else
      var before := Distinct(s[..|s| - 1]);
      var last := s[|s| - 1];
      assert s == s[..|s| - 1] + [last];
      if last in before then before else before + [last]
  }

  function DaySpecOf(spec: string): Result<seq<Weekday>, WindowError> {
    var trimmed := Lower(Trim(spec));
    if trimmed == "" then Err(EmptyDaySpec)
    else if trimmed == "*" then Ok([0, 1, 2, 3, 4, 5, 6])
    else DayListOf(Split(trimmed, ','))
  }

  function DayListOf(parts: seq<string>): Result<seq<Weekday>, WindowError> {
    match PartsDays(parts)
    case Err(e) => Err(e)
    case Ok(days) => if Distinct(days) == [] then Err(NoDays) else Ok(Distinct(days))
  }

  /** Seconds since midnight of a HH:MM text. */
  function TimeOfDay(value: string): (r: Result<nat, WindowError>)
    ensures r.Ok? ==> r.value < DAY && r.value % 60 == 0
  {
    var parts := Split(value, ':');
    if |parts| != 2 then Err(InvalidTime)
    else
      match (Atoi(parts[0]), Atoi(parts[1]))
      case (None, _) => Err(InvalidHour)
      case (Some(_), None) => Err(InvalidMinute)
      case (Some(hour), Some(minute)) =>
        if hour < 0 || hour > 23 then Err(HourOutOfRange)
        else if minute < 0 || minute > 59 then Err(MinuteOutOfRange)
        else Ok((hour * 60 + minute) * 60)
  }

  datatype DayAndTime = DayAndTime(days: seq<Weekday>, seconds: nat)

  function DayAndTimeOf(part: string): (r: Result<DayAndTime, WindowError>)
    ensures r.Ok? ==> r.value.seconds < DAY
  {
    var tokens := Fields(part);
    if tokens == [] then Err(MissingToken)
    else
      match TimeOfDay(tokens[|tokens| - 1])
      case Err(e) => Err(e)
      case Ok(seconds) =>
        match DaySpecOf(if |tokens| > 1 then Join(tokens[..|tokens| - 1], " ") else "*")
        case Err(e) => Err(e)
        case Ok(days) => Ok(DayAndTime(days, seconds))
  }

  datatype EndPart = EndPart(days: Option<seq<Weekday>>, seconds: nat)

  function EndPartOf(part: string): (r: Result<EndPart, WindowError>)
    ensures r.Ok? ==> r.value.seconds < DAY
  {
    var tokens := Fields(part);
    if tokens == [] then Err(MissingToken)
    else
      match TimeOfDay(tokens[|tokens| - 1])
      case Err(e) => Err(e)
      case Ok(seconds) =>
        if |tokens| == 1 then Ok(EndPart(None, seconds))
        else
          match DaySpecOf(Join(tokens[..|tokens| - 1], " "))
          case Err(e) => Err(e)
          case Ok(days) => Ok(EndPart(Some(days), seconds))
  }

  /** The texts before and after the separator: the first dash that follows the first colon. */
  function Sides(expr: string): Result<(string, string), WindowError> {
    var colon := IndexOf(expr, ':');
    if colon == -1 then Err(MissingTime)
    else
      var after := IndexOf(expr[colon..], '-');
      if after == -1 then Err(MissingDash)
      else
        var startPart, endPart := Trim(expr[..colon + after]), Trim(expr[colon + after + 1..]);
        if startPart == "" || endPart == "" then Err(EmptySide) else Ok((startPart, endPart))
  }

  function Combine(start: DayAndTime, end: EndPart): Result<Window, WindowError> {
    match end.days
    case None => Ok(Window(start.days, start.seconds, None, end.seconds))
    case Some(endDays) =>
      if |start.days| != 1 then Err(EndDayWithSeveralStarts)
      else if |endDays| != 1 then Err(SeveralEndDays)
      else Ok(Window(start.days, start.seconds, Some(endDays[0]), end.seconds))
  }

  /** The window a whole expression describes. */
  function WindowOf(expr: string): Result<Window, WindowError> {
    match Sides(expr)
    case Err(e) => Err(e)
    case Ok(sides) =>
      match DayAndTimeOf(sides.0)
      case Err(e) => Err(e)
      case Ok(start) =>
        match EndPartOf(sides.1)
        case Err(e) => Err(e)
        case Ok(end) => Combine(start, end)
  }

  // ----- Every accepted expression is a proper window -----

  lemma AllDaysUnique()
    ensures Unique<Weekday>([0, 1, 2, 3, 4, 5, 6])
  {
  }

  lemma DaySpecUnique(spec: string)
    ensures var r := DaySpecOf(spec); r.Ok? ==> r.value != [] && Unique(r.value)
  {
    AllDaysUnique();
  }

  lemma DayAndTimeUnique(part: string)
    ensures var r := DayAndTimeOf(part); r.Ok? ==> r.value.days != [] && Unique(r.value.days) && r.value.seconds < DAY
  {
    var tokens := Fields(part);
    if tokens != [] {
      DaySpecUnique(if |tokens| > 1 then Join(tokens[..|tokens| - 1], " ") else "*");
    }
  }

  lemma AcceptedIsValid(expr: string)
    ensures WindowOf(expr).Ok? ==> WindowOf(expr).value.Valid()
  {
    if WindowOf(expr).Ok? {
      DayAndTimeUnique(Sides(expr).value.0);
    }
  }

  // ----- Day ranges -----

  /** Forward distance is subtraction around the week, and it is the only number of days that leads there. */
  lemma ForwardIsModular(first: Weekday, n: Weekday)
    ensures DaysForward(first, DayAfter(first, n)) == n
    ensures DaysForward(first, n) == (n - first) % 7
  {
    ModWithin(n - first, 7);
  }

  /** A range holds a day exactly when that day is met going forward from the first day, before passing the last. */
  lemma DayRangeMeaning(first: Weekday, last: Weekday, day: Weekday)
    ensures day in DayRange(first, last) <==> (day - first) % 7 <= (last - first) % 7
    ensures |DayRange(first, last)| == (last - first) % 7 + 1
    ensures Unique(DayRange(first, last))
  {
    ForwardIsModular(first, last);
    ForwardIsModular(first, day);
    var range := DayRange(first, last);
    if DaysForward(first, day) <= DaysForward(first, last) {
      assert range[DaysForward(first, day)] == day;
    }
    forall i: Weekday | i < |range|
      ensures DaysForward(first, range[i]) == i
    {
      ForwardIsModular(first, i);
    }
  }
}
