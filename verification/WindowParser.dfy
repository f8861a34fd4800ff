/** The parser of window expressions, as the program runs it. */
module WindowParser {
  import opened Wrappers
  import opened Text
  import opened WindowLanguage
  import opened WindowSyntax

  method ExpandDayRange(first: Weekday, last: Weekday) returns (days: seq<Weekday>)
    ensures days == DayRange(first, last)
  {
    if first == last {
      return [first];
    }
    days := [];
    var current := first;
    while true
      invariant |days| <= DaysForward(first, last)
      invariant current == DayAfter(first, |days|)
      invariant days == DayRange(first, last)[..|days|]
      decreases 7 - |days|
    {
      ForwardIsModular(first, |days|);
      days := days + [current];
      if current == last {
        break;
      }
      current := (current as int + 1) % 7;
    }
  }

  /** Once a part is bad, the parts after it do not matter. */
  lemma {:induction false} BadPartDecides(parts: seq<string>, n: nat)
    requires n <= |parts| && PartsDays(parts[..n]).Err?
    ensures PartsDays(parts) == PartsDays(parts[..n])
  {
    if n == |parts| {
      assert parts[..n] == parts;
    } else {
      assert parts[..|parts| - 1][..n] == parts[..n];
      BadPartDecides(parts[..|parts| - 1], n);
    }
  }

  /** One comma-separated part: a day or a range of days. */
  method ParsePart(text: string) returns (r: Result<seq<Weekday>, WindowError>)
    ensures r == PartDays(text)
  {
    var part := Trim(text);
    if part == "" {
      return Err(EmptyDayPart);
    }
    var dash := IndexOf(part, '-');
    if dash != -1 {
      var first := DayName(part[..dash]);
      if first == None {
        return Err(UnknownDay(part[..dash]));
      }
      var last := DayName(part[dash + 1..]);
      if last == None {
        return Err(UnknownDay(part[dash + 1..]));
      }
      var range := ExpandDayRange(first.value, last.value);
      return Ok(range);
    }
    var day := DayName(part);
    if day == None {
      return Err(UnknownDay(part));
    }
    return Ok([day.value]);
  }

  method ParseDaySpec(spec: string) returns (r: Result<seq<Weekday>, WindowError>)
    ensures r == DaySpecOf(spec)
  {
    var trimmed := Lower(Trim(spec));
    if trimmed == "" {
      return Err(EmptyDaySpec);
    }
    if trimmed == "*" {
      return Ok([0, 1, 2, 3, 4, 5, 6]);
    }
    r := ParseDayList(Split(trimmed, ','));
  }

  method ParseDayList(parts: seq<string>) returns (r: Result<seq<Weekday>, WindowError>)
    ensures r == DayListOf(parts)
  {
    var days: seq<Weekday> := [];
    var seen: set<Weekday> := {};
    ghost var all: seq<Weekday> := [];
    for i := 0 to |parts|
      invariant PartsDays(parts[..i]) == Ok(all)
      invariant days == Distinct(all)
      invariant seen == set d | d in days
    {
      assert parts[..i + 1][..i] == parts[..i];
      var part := ParsePart(parts[i]);
      if part.Err? {
        BadPartDecides(parts, i + 1);
        return Err(part.error);
      }
      days, seen := AddDays(days, seen, all, part.value);
      all := all + part.value;
    }
    assert parts[..|parts|] == parts;
    if |days| == 0 {
      return Err(NoDays);
    }
    return Ok(days);
  }

  lemma DistinctStep(s: seq<Weekday>, day: Weekday)
    ensures Distinct(s + [day]) == if day in Distinct(s) then Distinct(s) else Distinct(s) + [day]
  {
    assert (s + [day])[..|s|] == s;
  }

  /** Appends the days that were not seen before. */
  method AddDays(days: seq<Weekday>, seen: set<Weekday>, ghost all: seq<Weekday>, more: seq<Weekday>)
    returns (days': seq<Weekday>, seen': set<Weekday>)
    requires days == Distinct(all) && seen == set d | d in days
    ensures days' == Distinct(all + more) && seen' == set d | d in days'
  {
    hide Distinct;
    days', seen' := days, seen;
    assert all + more[..0] == all;
    for i := 0 to |more|
      invariant days' == Distinct(all + more[..i])
      invariant seen' == set d | d in days'
    {
      assert all + more[..i + 1] == (all + more[..i]) + [more[i]];
      DistinctStep(all + more[..i], more[i]);
      if more[i] !in seen' {
        days' := days' + [more[i]];
        seen' := seen' + {more[i]};
      }
    }
    assert more[..|more|] == more;
  }

  method ParseDayAndTime(part: string) returns (r: Result<DayAndTime, WindowError>)
    ensures r == DayAndTimeOf(part)
  {
    var tokens := Fields(part);
    if |tokens| == 0 {
      return Err(MissingToken);
    }
    var seconds := TimeOfDay(tokens[|tokens| - 1]);
    if seconds.Err? {
      return Err(seconds.error);
    }
    var daySpec := "*";
    if |tokens| > 1 {
      daySpec := Join(tokens[..|tokens| - 1], " ");
    }
    var days := ParseDaySpec(daySpec);
    if days.Err? {
      return Err(days.error);
    }
    return Ok(DayAndTime(days.value, seconds.value));
  }

  method ParseEndPart(part: string) returns (r: Result<EndPart, WindowError>)
    ensures r == EndPartOf(part)
  {
    var tokens := Fields(part);
    if |tokens| == 0 {
      return Err(MissingToken);
    }
    var seconds := TimeOfDay(tokens[|tokens| - 1]);
    if seconds.Err? {
      return Err(seconds.error);
    }
    if |tokens| == 1 {
      return Ok(EndPart(None, seconds.value));
    }
    var days := ParseDaySpec(Join(tokens[..|tokens| - 1], " "));
    if days.Err? {
      return Err(days.error);
    }
    return Ok(EndPart(Some(days.value), seconds.value));
  }

  method ParseExpression(expr: string) returns (r: Result<seq<Interval>, WindowError>)
    ensures r.Err? <==> WindowOf(expr).Err?
    ensures r.Err? ==> r.error == WindowOf(expr).error
    ensures r.Ok? ==> WindowOf(expr).value.Valid() && r.value == Intervals(WindowOf(expr).value)
  {
    AcceptedIsValid(expr);
    var sides := Sides(expr);
    if sides.Err? {
      return Err(sides.error);
    }
    var from := ParseDayAndTime(sides.value.0);
    if from.Err? {
      return Err(from.error);
    }
    var to := ParseEndPart(sides.value.1);
    if to.Err? {
      return Err(to.error);
    }
    assert WindowOf(expr) == Combine(from.value, to.value);
    r := BuildIntervals(from.value, to.value);
  }

  method BuildIntervals(from: DayAndTime, to: EndPart) returns (r: Result<seq<Interval>, WindowError>)
    requires from.seconds < DAY && to.seconds < DAY
    ensures r.Err? <==> Combine(from, to).Err?
    ensures r.Err? ==> r.error == Combine(from, to).error
    ensures r.Ok? ==> var w := Combine(from, to).value; (w.endDay.Some? ==> w.days != []) && r.value == Intervals(w)
  {
    if to.days.Some? {
      if |from.days| != 1 {
        return Err(EndDayWithSeveralStarts);
      }
      if |to.days.value| != 1 {
        return Err(SeveralEndDays);
      }
      var intervals := SpanIntervals(from.days, from.seconds, to.days.value[0], to.seconds);
      return Ok(intervals);
    }
    var intervals := DailyIntervals(from.days, from.seconds, to.seconds);
    return Ok(intervals);
  }

  /** The intervals of a window with an end day. */
  method SpanIntervals(startDays: seq<Weekday>, startSeconds: nat, endDay: Weekday, endSeconds: nat)
    returns (intervals: seq<Interval>)
    requires |startDays| == 1 && startSeconds < DAY && endSeconds < DAY
    ensures intervals == Intervals(Window(startDays, startSeconds, Some(endDay), endSeconds))
  {
    var start := startDays[0] * DAY + startSeconds;
    var end := endDay * DAY + endSeconds;
    ghost var unwrapped := end;
    while end <= start
      invariant end == unwrapped || (end == unwrapped + WEEK && unwrapped <= start)
      decreases start - end
    {
      end := end + WEEK;
    }
    if end > WEEK {
      return [Interval(start, WEEK, ""), Interval(0, end - WEEK, "")];
    }
    return [Interval(start, end, "")];
  }

  /** The intervals of a window without an end day. */
  method DailyIntervals(startDays: seq<Weekday>, startSeconds: nat, endSeconds: nat)
    returns (intervals: seq<Interval>)
    ensures intervals == EveryDayIntervals(startDays, startSeconds, endSeconds)
  {
    intervals := [];
    for i := 0 to |startDays|
      invariant intervals == EveryDayIntervals(startDays[..i], startSeconds, endSeconds)
    {
      assert startDays[..i + 1][..i] == startDays[..i];
      var start := startDays[i] * DAY + startSeconds;
      var end := startDays[i] * DAY + endSeconds;
      if end <= start {
        end := end + DAY;
      }
      if end > WEEK {
        intervals := intervals + [Interval(start, WEEK, ""), Interval(0, end - WEEK, "")];
      } else {
        intervals := intervals + [Interval(start, end, "")];
      }
    }
    assert startDays[..|startDays|] == startDays;
  }
}
