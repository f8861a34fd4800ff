/**
 The maintenance-window language: what a window expression means, and the week-second
 intervals the program stores for it.
 */
module WindowLanguage {
  import opened Wrappers

  const DAY := 86400
  const WEEK := 7 * DAY

  type Weekday = d: nat | d < 7

  datatype WindowError =
    | MissingTime
    | MissingDash
    | EmptySide
    | MissingToken
    | InvalidTime
    | InvalidHour
    | InvalidMinute
    | HourOutOfRange
    | MinuteOutOfRange
    | EmptyDaySpec
    | EmptyDayPart
    | NoDays
    | UnknownDay(name: string)
    | EndDayWithSeveralStarts
    | SeveralEndDays
    | EmptyExpression
    | InExpression(index: nat, cause: WindowError)

  /** The windows one expression describes: one per start day, all alike. */
  datatype Window = Window(days: seq<Weekday>, start: nat, endDay: Option<Weekday>, end: nat) {
    ghost predicate Valid() {
      && days != []
      && Unique(days)
      && start < DAY
      && end < DAY
      && (endDay.Some? ==> |days| == 1)
    }

    /** How long one window lasts; equal end points stand for a full day, or a full week when an end day is given. */
    function Length(): (n: nat)
      requires Valid()
      ensures 1 <= n <= if endDay.Some? then WEEK else DAY
    {
      match endDay
      case None => 1 + (end - start - 1) % DAY
      case Some(d) => 1 + (d * DAY + end - days[0] * DAY - start - 1) % WEEK
    }

    /** Week-second t lies less than one length, counted around the week, after the start on day d. */
    predicate ContainsFrom(d: Weekday, t: int)
      requires Valid()
    {
      (t - (d * DAY + start)) % WEEK < Length()
    }

    /** Week-second t lies in the window of some start day. */
    ghost predicate Contains(t: int)
      requires Valid()
    {
      exists d :: d in days && ContainsFrom(d, t)
    }
  }

  datatype Interval = Interval(start: int, end: int, expr: string) {
    predicate Contains(t: int) {
      start <= t < end
    }

    predicate WellFormed() {
      0 <= start < end <= WEEK
    }
  }

  ghost predicate Unique<T>(s: seq<T>) {
    forall i, j | 0 <= i < j < |s| :: s[i] != s[j]
  }

  ghost predicate Covered(intervals: seq<Interval>, t: int) {
    exists i :: 0 <= i < |intervals| && intervals[i].Contains(t)
  }

  /** The stretch [start, end) of a line that wraps once around the week. */
  function Wrapped(start: int, end: int): seq<Interval> {
    if end > WEEK then [Interval(start, WEEK, ""), Interval(0, end - WEEK, "")]
    else [Interval(start, end, "")]
  }

  function DayIntervals(day: Weekday, start: nat, end: nat): seq<Interval> {
    Wrapped(day * DAY + start, day * DAY + end + if end <= start then DAY else 0)
  }

  function EveryDayIntervals(days: seq<Weekday>, start: nat, end: nat): seq<Interval> {
    if days == [] then []
    else EveryDayIntervals(days[..|days| - 1], start, end) + DayIntervals(days[|days| - 1], start, end)
  }

  /** The intervals stored for a window. */
  function Intervals(w: Window): seq<Interval>
    requires w.endDay.Some? ==> w.days != []
  {
    match w.endDay
    case Some(d) =>
      var start, end := w.days[0] * DAY + w.start, d * DAY + w.end;
      Wrapped(start, if end <= start then end + WEEK else end)
    case None => EveryDayIntervals(w.days, w.start, w.end)
  }

  // ----- Meaning -----

  lemma ModWithin(x: int, m: int)
    requires 0 < m
    ensures 0 <= x < m ==> x % m == x
    ensures -m <= x < 0 ==> x % m == x + m
    ensures m <= x < 2 * m ==> x % m == x - m
  {
    if -m <= x < 0 {
      assert x == -1 * m + (x + m);
    }
  }

  /** A stretch no longer than a week, cut at the end of the week, holds exactly the week-seconds it passes over. */
  lemma WrappedCovers(start: int, length: int, t: int)
    requires 0 <= start < WEEK && 0 < length <= WEEK && 0 <= t < WEEK
    ensures Covered(Wrapped(start, start + length), t) <==> (t - start) % WEEK < length
  {
    ModWithin(t - start, WEEK);
    var cut := Wrapped(start, start + length);
    if (t - start) % WEEK < length {
      assert cut[if t < start then 1 else 0].Contains(t);
    }
  }

  lemma DayLength(w: Window, day: Weekday)
    requires w.Valid() && w.endDay == None
    ensures DayIntervals(day, w.start, w.end) == Wrapped(day * DAY + w.start, day * DAY + w.start + w.Length())
  {
    ModWithin(w.end - w.start - 1, DAY);
  }

  lemma CoveredConcat(a: seq<Interval>, b: seq<Interval>, t: int)
    ensures Covered(a + b, t) <==> Covered(a, t) || Covered(b, t)
  {
    if Covered(a, t) {
      var i :| 0 <= i < |a| && a[i].Contains(t);
      assert (a + b)[i].Contains(t);
    }
    if Covered(b, t) {
      var i :| 0 <= i < |b| && b[i].Contains(t);
      assert (a + b)[|a| + i].Contains(t);
    }
  }

  lemma DayCovers(w: Window, day: Weekday, t: int)
    requires w.Valid() && w.endDay == None && 0 <= t < WEEK
    ensures Covered(DayIntervals(day, w.start, w.end), t) <==> w.ContainsFrom(day, t)
  {
    hide Wrapped, Covered, Window.Length;
    DayLength(w, day);
    WrappedCovers(day * DAY + w.start, w.Length(), t);
  }

  lemma {:induction false} EveryDayCovers(w: Window, n: nat, t: int)
    requires w.Valid() && w.endDay == None && n <= |w.days| && 0 <= t < WEEK
    ensures Covered(EveryDayIntervals(w.days[..n], w.start, w.end), t)
       <==> exists i :: 0 <= i < n && w.ContainsFrom(w.days[i], t)
  {
    if n > 0 {
      hide Covered, DayIntervals, Window.ContainsFrom;
      EveryDayCovers(w, n - 1, t);
      assert w.days[..n][..n - 1] == w.days[..n - 1];
      var day := w.days[n - 1];
      DayCovers(w, day, t);
      CoveredConcat(EveryDayIntervals(w.days[..n - 1], w.start, w.end), DayIntervals(day, w.start, w.end), t);
    }
  }

  lemma EndDayWraps(w: Window)
    requires w.Valid() && w.endDay.Some?
    ensures Intervals(w) == Wrapped(w.days[0] * DAY + w.start, w.days[0] * DAY + w.start + w.Length())
  {
    ModWithin(w.endDay.value * DAY + w.end - w.days[0] * DAY - w.start - 1, WEEK);
  }

  /** The stored intervals hold a week-second exactly when the window, read around the week, holds it. */
  lemma IntervalsMeanWindow(w: Window, t: int)
    requires w.Valid() && 0 <= t < WEEK
    ensures Covered(Intervals(w), t) <==> w.Contains(t)
  {
    if w.endDay.Some? {
      EndDayWraps(w);
      WrappedCovers(w.days[0] * DAY + w.start, w.Length(), t);
      assert forall d :: d in w.days <==> d == w.days[0];
      assert w.Contains(t) <==> w.ContainsFrom(w.days[0], t);
    } else {
      EveryDayCovers(w, |w.days|, t);
      assert w.days[..|w.days|] == w.days;
      SomeDay(w, t);
    }
  }

  lemma SomeDay(w: Window, t: int)
    requires w.Valid()
    ensures w.Contains(t) <==> exists i :: 0 <= i < |w.days| && w.ContainsFrom(w.days[i], t)
  {
    if w.Contains(t) {
      var d :| d in w.days && w.ContainsFrom(d, t);
      var i :| 0 <= i < |w.days| && w.days[i] == d;
    }
    if i :| 0 <= i < |w.days| && w.ContainsFrom(w.days[i], t) {
      assert w.days[i] in w.days;
    }
  }

  // ----- The window in plain terms -----

  /** From one week-second up to another, going around the week when the other is not later; all week when they coincide. */
  predicate Between(from: int, to: int, t: int) {
    if from < to then from <= t < to else from <= t || t < to
  }

  /** On a start day: from the start to the end of the same day, or, when that is not later, until the end on the next day. */
  predicate OnDay(w: Window, d: Weekday, t: int) {
    if w.start < w.end then d * DAY + w.start <= t < d * DAY + w.end
    else d * DAY + w.start <= t < (d + 1) * DAY || (d + 1) % 7 * DAY <= t < (d + 1) % 7 * DAY + w.end
  }

  lemma AroundWeek(from: int, n: int, t: int)
    requires 0 <= from < WEEK && 1 <= n <= WEEK && 0 <= t < WEEK
    ensures (t - from) % WEEK < n <==> if from + n <= WEEK then from <= t < from + n else from <= t || t < from + n - WEEK
  {
    ModWithin(t - from, WEEK);
  }

  /** What a window holds, said day by day and time by time. */
  lemma ContainsPlainly(w: Window, t: int)
    requires w.Valid() && 0 <= t < WEEK
    ensures w.Contains(t) <==>
      match w.endDay
      case None => exists d | d in w.days :: OnDay(w, d, t)
      case Some(e) => Between(w.days[0] * DAY + w.start, e * DAY + w.end, t)
  {
    if w.endDay.Some? {
      SpanPlainly(w, t);
      assert forall d :: d in w.days <==> d == w.days[0];
    } else {
      forall d | d in w.days
        ensures w.ContainsFrom(d, t) <==> OnDay(w, d, t)
      {
        DayPlainly(w, d, t);
      }
    }
  }

  lemma DayPlainly(w: Window, d: Weekday, t: int)
    requires w.Valid() && w.endDay == None && 0 <= t < WEEK
    ensures w.ContainsFrom(d, t) <==> OnDay(w, d, t)
  {
    ModWithin(w.end - w.start - 1, DAY);
    AroundWeek(d * DAY + w.start, w.Length(), t);
  }

  lemma SpanPlainly(w: Window, t: int)
    requires w.Valid() && w.endDay.Some? && 0 <= t < WEEK
    ensures w.ContainsFrom(w.days[0], t) <==> Between(w.days[0] * DAY + w.start, w.endDay.value * DAY + w.end, t)
  {
    ModWithin(w.endDay.value * DAY + w.end - w.days[0] * DAY - w.start - 1, WEEK);
    AroundWeek(w.days[0] * DAY + w.start, w.Length(), t);
  }

  // ----- Shape and measure -----

  function TotalLength(intervals: seq<Interval>): int {
    if intervals == [] then 0
    else TotalLength(intervals[..|intervals| - 1]) + intervals[|intervals| - 1].end - intervals[|intervals| - 1].start
  }

  ghost predicate PairwiseDisjoint(intervals: seq<Interval>) {
    forall i, j | 0 <= i < j < |intervals| :: Apart(intervals[i], intervals[j])
  }

  ghost predicate AllWellFormed(intervals: seq<Interval>) {
    forall i | 0 <= i < |intervals| :: intervals[i].WellFormed()
  }

  lemma {:induction false} TotalLengthConcat(a: seq<Interval>, b: seq<Interval>)
    ensures TotalLength(a + b) == TotalLength(a) + TotalLength(b)
  {
    if b == [] {
      assert a + b == a;
    } else {
      var n := |b| - 1;
      assert (a + b)[..|a + b| - 1] == a + b[..n];
      TotalLengthConcat(a, b[..n]);
    }
  }

  lemma WrappedShape(start: int, length: int)
    requires 0 <= start < WEEK && 0 < length <= WEEK
    ensures AllWellFormed(Wrapped(start, start + length))
    ensures PairwiseDisjoint(Wrapped(start, start + length))
    ensures TotalLength(Wrapped(start, start + length)) == length
  {
    var cut := Wrapped(start, start + length);
    if |cut| == 2 {
      assert cut[..1] == [cut[0]];
      assert TotalLength([cut[0]]) == cut[0].end - cut[0].start by {
        assert [cut[0]][..0] == [];
      }
    }
  }

  /** Two well-formed intervals that share no week-second lie apart. */
  lemma ApartWhenNothingShared(a: Interval, b: Interval)
    requires a.WellFormed() && b.WellFormed()
    requires forall t | 0 <= t < WEEK :: !(a.Contains(t) && b.Contains(t))
    ensures Apart(a, b)
  {
    var t := if a.start < b.start then b.start else a.start;
    assert !(a.Contains(t) && b.Contains(t));
  }

  lemma TwoDaysApart(w: Window, a: Weekday, b: Weekday, t: int)
    requires w.Valid() && w.endDay == None && a != b && 0 <= t < WEEK
    ensures !(w.ContainsFrom(a, t) && w.ContainsFrom(b, t))
  {
    ModWithin(t - (a * DAY + w.start), WEEK);
    ModWithin(t - (b * DAY + w.start), WEEK);
  }

  lemma {:induction false} EveryDayShape(w: Window, n: nat)
    requires w.Valid() && w.endDay == None && n <= |w.days|
    ensures AllWellFormed(EveryDayIntervals(w.days[..n], w.start, w.end))
    ensures PairwiseDisjoint(EveryDayIntervals(w.days[..n], w.start, w.end))
    ensures TotalLength(EveryDayIntervals(w.days[..n], w.start, w.end)) == n * w.Length()
  {
    if n > 0 {
      hide Window.Length, Wrapped, DayIntervals, TotalLength, AllWellFormed, PairwiseDisjoint;
      EveryDayShape(w, n - 1);
      assert w.days[..n][..n - 1] == w.days[..n - 1];
      var before := EveryDayIntervals(w.days[..n - 1], w.start, w.end);
      var added := DayIntervals(w.days[n - 1], w.start, w.end);
      DayShape(w, w.days[n - 1]);
      Distribute(n, w.Length());
      NewDayDisjoint(w, n - 1, before, added);
      JoinShapes(before, added);
    }
  }

  lemma DayShape(w: Window, day: Weekday)
    requires w.Valid() && w.endDay == None
    ensures var ivs := DayIntervals(day, w.start, w.end);
      AllWellFormed(ivs) && PairwiseDisjoint(ivs) && TotalLength(ivs) == w.Length()
  {
    DayLength(w, day);
    WrappedShape(day * DAY + w.start, w.Length());
  }

  lemma JoinShapes(a: seq<Interval>, b: seq<Interval>)
    requires AllWellFormed(a) && AllWellFormed(b)
    requires PairwiseDisjoint(a) && PairwiseDisjoint(b)
    requires forall i, j | 0 <= i < |a| && 0 <= j < |b| :: Apart(a[i], b[j])
    ensures AllWellFormed(a + b) && PairwiseDisjoint(a + b)
    ensures TotalLength(a + b) == TotalLength(a) + TotalLength(b)
  {
    hide TotalLength, Apart, Interval.WellFormed;
    TotalLengthConcat(a, b);
    DisjointConcat(a, b);
  }

  lemma Distribute(n: int, m: int)
    ensures n * m == (n - 1) * m + m
  {
  }

  ghost predicate Apart(a: Interval, b: Interval) {
    a.end <= b.start || b.end <= a.start
  }

  lemma DisjointConcat(a: seq<Interval>, b: seq<Interval>)
    requires PairwiseDisjoint(a) && PairwiseDisjoint(b)
    requires forall i, j | 0 <= i < |a| && 0 <= j < |b| :: Apart(a[i], b[j])
    ensures PairwiseDisjoint(a + b)
  {
    forall i, j | 0 <= i < j < |a + b|
      ensures Apart((a + b)[i], (a + b)[j])
    {
      if i < |a| <= j {
        assert Apart(a[i], b[j - |a|]);
      }
    }
  }

  lemma NewDayDisjoint(w: Window, n: nat, before: seq<Interval>, added: seq<Interval>)
    requires w.Valid() && w.endDay == None && n < |w.days|
    requires before == EveryDayIntervals(w.days[..n], w.start, w.end) && added == DayIntervals(w.days[n], w.start, w.end)
    requires AllWellFormed(before) && AllWellFormed(added)
    ensures forall i, j | 0 <= i < |before| && 0 <= j < |added| :: Apart(before[i], added[j])
  {
    forall i, j | 0 <= i < |before| && 0 <= j < |added|
      ensures Apart(before[i], added[j])
    {
      forall t | 0 <= t < WEEK
        ensures !(before[i].Contains(t) && added[j].Contains(t))
      {
        NewDayApart(w, n, t);
      }
      ApartWhenNothingShared(before[i], added[j]);
    }
  }

  /** The intervals of the first n start days share no week-second with those of the next one. */
  lemma NewDayApart(w: Window, n: nat, t: int)
    requires w.Valid() && w.endDay == None && n < |w.days| && 0 <= t < WEEK
    ensures !(Covered(EveryDayIntervals(w.days[..n], w.start, w.end), t)
              && Covered(DayIntervals(w.days[n], w.start, w.end), t))
  {
    EveryDayCovers(w, n, t);
    DayCovers(w, w.days[n], t);
    if Covered(EveryDayIntervals(w.days[..n], w.start, w.end), t) {
      var i :| 0 <= i < n && w.ContainsFrom(w.days[i], t);
      TwoDaysApart(w, w.days[i], w.days[n], t);
    }
  }

  /** The intervals of one window are well formed, pairwise disjoint, and as long in all as its start days times its length. */
  lemma IntervalsShape(w: Window)
    requires w.Valid()
    ensures AllWellFormed(Intervals(w))
    ensures PairwiseDisjoint(Intervals(w))
    ensures TotalLength(Intervals(w)) == |w.days| * w.Length()
  {
    if w.endDay.Some? {
      EndDayWraps(w);
      WrappedShape(w.days[0] * DAY + w.start, w.Length());
    } else {
      EveryDayShape(w, |w.days|);
      assert w.days[..|w.days|] == w.days;
    }
  }
}
