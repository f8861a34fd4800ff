/** Building an evaluator from allow and deny lists, and deciding whether a moment may be used for a reboot. */
module WindowEvaluator {
  import opened Wrappers
  import opened Text
  import opened WindowLanguage
  import opened WindowSyntax
  import WindowParser

  datatype ListName = DenyList | AllowList

  datatype ListError = ListError(list: ListName, index: nat, cause: WindowError)

  /** A moment as the local clock shows it; Sunday is day 0. */
  datatype Moment = Moment(day: Weekday, hour: nat, minute: nat, second: nat) {
    predicate Valid() {
      hour < 24 && minute < 60 && second < 60
    }

    function SecondsSinceWeekStart(): (t: nat)
      requires Valid()
      ensures t < WEEK
      ensures t / DAY == day && t % DAY == hour * 3600 + minute * 60 + second
    {
      var inDay := hour * 3600 + minute * 60 + second;
      assert inDay < DAY;
      day * DAY + hour * 60 * 60 + minute * 60 + second
    }
  }

  datatype Decision = Decision(
    allowed: bool, allowConfigured: bool, matchedAllow: Option<string>, matchedDeny: Option<string>)

  datatype Evaluator = Evaluator(allow: seq<Interval>, deny: seq<Interval>) {

    method Evaluate(now: Moment) returns (decision: Decision)
      requires now.Valid()
      ensures decision == Decide(this, now.SecondsSinceWeekStart())
    {
      var seconds := now.SecondsSinceWeekStart();
      decision := Decision(true, |allow| > 0, None, None);
      for i := 0 to |deny|
        invariant FirstMatch(deny[..i], seconds) == None
      {
        assert deny[..i + 1][..i] == deny[..i];
        if deny[i].Contains(seconds) {
          FirstMatchStays(deny, i + 1, seconds);
          return decision.(allowed := false, matchedDeny := Some(deny[i].expr));
        }
      }
      assert deny[..|deny|] == deny;
      if decision.allowConfigured {
        decision := decision.(allowed := false);
        for i := 0 to |allow|
          invariant FirstMatch(allow[..i], seconds) == None
        {
          assert allow[..i + 1][..i] == allow[..i];
          if allow[i].Contains(seconds) {
            FirstMatchStays(allow, i + 1, seconds);
            return decision.(allowed := true, matchedAllow := Some(allow[i].expr));
          }
        }
        assert allow[..|allow|] == allow;
      }
    }
  }

  /** The expression of the first interval that holds week-second t. */
  function FirstMatch(intervals: seq<Interval>, t: int): Option<string> {
    if intervals == [] then None
    else
      match FirstMatch(intervals[..|intervals| - 1], t)
      case Some(expr) => Some(expr)
      case None => if intervals[|intervals| - 1].Contains(t) then Some(intervals[|intervals| - 1].expr) else None
  }

  lemma {:induction false} FirstMatchStays(intervals: seq<Interval>, n: nat, t: int)
    requires n <= |intervals| && FirstMatch(intervals[..n], t).Some?
    ensures FirstMatch(intervals, t) == FirstMatch(intervals[..n], t)
  {
    if n == |intervals| {
      assert intervals[..n] == intervals;
    } else {
      assert intervals[..|intervals| - 1][..n] == intervals[..n];
      FirstMatchStays(intervals[..|intervals| - 1], n, t);
    }
  }

  function Decide(e: Evaluator, t: int): Decision {
    var denied := FirstMatch(e.deny, t);
    if denied.Some? then Decision(false, e.allow != [], None, denied)
    else if e.allow == [] then Decision(true, false, None, None)
    else Decision(FirstMatch(e.allow, t).Some?, true, FirstMatch(e.allow, t), None)
  }

  // ----- Building -----

  function Tagged(intervals: seq<Interval>, expr: string): seq<Interval> {
    seq(|intervals|, i requires 0 <= i < |intervals| => intervals[i].(expr := expr))
  }

  function ExpressionOf(expr: string): Result<Window, WindowError> {
    if Trim(expr) == "" then Err(EmptyExpression) else WindowOf(Trim(expr))
  }

  /** The intervals of a list of expressions, each carrying its trimmed expression; the first bad one decides the error. */
  function ListOf(exprs: seq<string>, list: ListName): Result<seq<Interval>, ListError> {
    if exprs == [] then Ok([])
    else
      var n := |exprs| - 1;
      match ListOf(exprs[..n], list)
      case Err(e) => Err(e)
      case Ok(before) =>
        match ExpressionOf(exprs[n])
        case Err(e) => Err(ListError(list, n, e))
        case Ok(w) =>
          AcceptedIsValid(Trim(exprs[n]));
          Ok(before + Tagged(Intervals(w), Trim(exprs[n])))
  }

  lemma {:induction false} BadExpressionDecides(exprs: seq<string>, list: ListName, n: nat)
    requires n <= |exprs| && ListOf(exprs[..n], list).Err?
    ensures ListOf(exprs, list) == ListOf(exprs[..n], list)
  {
    if n == |exprs| {
      assert exprs[..n] == exprs;
    } else {
      assert exprs[..|exprs| - 1][..n] == exprs[..n];
      BadExpressionDecides(exprs[..|exprs| - 1], list, n);
    }
  }

  /** A refused list tells the first of its expressions that is refused, and why. */
  lemma {:induction false} FirstBadIsTold(exprs: seq<string>, list: ListName)
    ensures ListOf(exprs, list).Err? ==>
      var e := ListOf(exprs, list).error;
      && e.list == list && e.index < |exprs| && ExpressionOf(exprs[e.index]) == Err(e.cause)
      && forall i | 0 <= i < e.index :: ExpressionOf(exprs[i]).Ok?
  {
    hide ExpressionOf, Intervals;
    if exprs != [] {
      FirstBadIsTold(exprs[..|exprs| - 1], list);
      AllGood(exprs[..|exprs| - 1], list);
    }
  }

  lemma {:induction false} AllGood(exprs: seq<string>, list: ListName)
    ensures ListOf(exprs, list).Ok? ==> forall i | 0 <= i < |exprs| :: ExpressionOf(exprs[i]).Ok?
  {
    hide ExpressionOf, Intervals;
    if exprs != [] {
      AllGood(exprs[..|exprs| - 1], list);
    }
  }

  method ParseList(exprs: seq<string>, list: ListName) returns (r: Result<seq<Interval>, ListError>)
    ensures r == ListOf(exprs, list)
  {
    hide Trim, WindowOf, Intervals;
    var all := [];
    for i := 0 to |exprs|
      invariant ListOf(exprs[..i], list) == Ok(all)
    {
      assert exprs[..i + 1][..i] == exprs[..i];
      var trimmed := Trim(exprs[i]);
      if trimmed == "" {
        BadExpressionDecides(exprs, list, i + 1);
        return Err(ListError(list, i, EmptyExpression));
      }
      var intervals := WindowParser.ParseExpression(trimmed);
      if intervals.Err? {
        BadExpressionDecides(exprs, list, i + 1);
        return Err(ListError(list, i, intervals.error));
      }
      var tagged := TagAll(intervals.value, trimmed);
      all := all + tagged;
    }
    assert exprs[..|exprs|] == exprs;
    return Ok(all);
  }

  method TagAll(intervals: seq<Interval>, expr: string) returns (tagged: seq<Interval>)
    ensures tagged == Tagged(intervals, expr)
  {
    tagged := [];
    for i := 0 to |intervals|
      invariant tagged == Tagged(intervals, expr)[..i]
    {
      tagged := tagged + [intervals[i].(expr := expr)];
    }
  }

  function EvaluatorOf(allow: seq<string>, deny: seq<string>): Result<Option<Evaluator>, ListError> {
    match ListOf(deny, DenyList)
    case Err(e) => Err(e)
    case Ok(denied) =>
      match ListOf(allow, AllowList)
      case Err(e) => Err(e)
      case Ok(allowed) => if denied == [] && allowed == [] then Ok(None) else Ok(Some(Evaluator(allowed, denied)))
  }

  method NewEvaluator(allow: seq<string>, deny: seq<string>) returns (r: Result<Option<Evaluator>, ListError>)
    ensures r == EvaluatorOf(allow, deny)
  {
    var denied := ParseList(deny, DenyList);
    if denied.Err? {
      return Err(denied.error);
    }
    var allowed := ParseList(allow, AllowList);
    if allowed.Err? {
      return Err(allowed.error);
    }
    if |allowed.value| == 0 && |denied.value| == 0 {
      return Ok(None);
    }
    return Ok(Some(Evaluator(allowed.value, denied.value)));
  }

  // ----- The decision, in terms of the written expressions -----

  /** The expression is accepted, and the window it describes holds week-second t. */
  ghost predicate Covers(expr: string, t: int) {
    ExpressionOf(expr).Ok? && (AcceptedIsValid(Trim(expr)); ExpressionOf(expr).value.Contains(t))
  }

  lemma {:induction false} FirstMatchConcat(a: seq<Interval>, b: seq<Interval>, t: int)
    ensures FirstMatch(a + b, t) == if FirstMatch(a, t).Some? then FirstMatch(a, t) else FirstMatch(b, t)
  {
    if b == [] {
      assert a + b == a;
    } else {
      var n := |b| - 1;
      assert (a + b)[..|a + b| - 1] == a + b[..n];
      FirstMatchConcat(a, b[..n], t);
    }
  }

  lemma {:induction false} FirstMatchTagged(intervals: seq<Interval>, expr: string, t: int)
    ensures FirstMatch(Tagged(intervals, expr), t) == if Covered(intervals, t) then Some(expr) else None
  {
    if intervals != [] {
      var n := |intervals| - 1;
      FirstMatchTagged(intervals[..n], expr, t);
      assert Tagged(intervals, expr)[..n] == Tagged(intervals[..n], expr);
      assert intervals == intervals[..n] + [intervals[n]];
      CoveredConcat(intervals[..n], [intervals[n]], t);
      assert Covered([intervals[n]], t) <==> intervals[n].Contains(t);
    }
  }

  /** Position of the first expression of a list whose window holds week-second t. */
  ghost predicate FirstCovering(exprs: seq<string>, t: int, i: nat) {
    i < |exprs| && Covers(exprs[i], t) && forall j | 0 <= j < i :: !Covers(exprs[j], t)
  }

  ghost predicate AnyCovers(exprs: seq<string>, t: int) {
    exists e :: e in exprs && Covers(e, t)
  }

  /** One more expression matters only to moments that none before it holds. */
  lemma MatchStep(exprs: seq<string>, list: ListName, t: int)
    requires exprs != [] && ListOf(exprs, list).Ok? && 0 <= t < WEEK
    ensures var n := |exprs| - 1;
      && ListOf(exprs[..n], list).Ok?
      && FirstMatch(ListOf(exprs, list).value, t)
         == (var before := FirstMatch(ListOf(exprs[..n], list).value, t);
             if before.Some? then before else if Covers(exprs[n], t) then Some(Trim(exprs[n])) else None)
  {
    hide Intervals, WindowOf, Trim;
    var n := |exprs| - 1;
    AcceptedIsValid(Trim(exprs[n]));
    var w := ExpressionOf(exprs[n]).value;
    FirstMatchConcat(ListOf(exprs[..n], list).value, Tagged(Intervals(w), Trim(exprs[n])), t);
    FirstMatchTagged(Intervals(w), Trim(exprs[n]), t);
    IntervalsMeanWindow(w, t);
  }

  lemma AnyCoversStep(exprs: seq<string>, t: int)
    requires exprs != []
    ensures AnyCovers(exprs, t) <==> AnyCovers(exprs[..|exprs| - 1], t) || Covers(exprs[|exprs| - 1], t)
  {
    hide Covers;
    assert exprs == exprs[..|exprs| - 1] + [exprs[|exprs| - 1]];
  }

  lemma FirstCoveringStep(exprs: seq<string>, t: int, i: nat)
    requires FirstCovering(exprs, t, i)
    ensures i < |exprs| - 1 ==> FirstCovering(exprs[..|exprs| - 1], t, i) && AnyCovers(exprs[..|exprs| - 1], t)
    ensures i == |exprs| - 1 ==> !AnyCovers(exprs[..|exprs| - 1], t)
  {
    hide Covers;
    if i < |exprs| - 1 {
      assert exprs[i] in exprs[..|exprs| - 1];
    }
  }

  /** Matching a list of intervals finds the first expression, in list order, whose window holds the moment. */
  lemma {:induction false} MatchIsFirstCovering(exprs: seq<string>, list: ListName, t: int)
    requires ListOf(exprs, list).Ok? && 0 <= t < WEEK
    ensures FirstMatch(ListOf(exprs, list).value, t).Some? <==> AnyCovers(exprs, t)
    ensures forall i: nat | FirstCovering(exprs, t, i) :: FirstMatch(ListOf(exprs, list).value, t) == Some(Trim(exprs[i]))
  {
    if exprs != [] {
      hide Covers, Trim;
      MatchStep(exprs, list, t);
      hide ListOf;
      MatchIsFirstCovering(exprs[..|exprs| - 1], list, t);
      AnyCoversStep(exprs, t);
      forall i: nat | FirstCovering(exprs, t, i)
        ensures FirstMatch(ListOf(exprs, list).value, t) == Some(Trim(exprs[i]))
      {
        FirstCoveringStep(exprs, t, i);
      }
    }
  }

  lemma WindowStores(w: Window)
    requires w.Valid()
    ensures Intervals(w) != []
  {
  }

  /** An accepted list stores no interval only when it is empty. */
  lemma NonEmptyListStores(exprs: seq<string>, list: ListName)
    requires ListOf(exprs, list).Ok?
    ensures ListOf(exprs, list).value == [] <==> exprs == []
  {
    if exprs != [] {
      AcceptedIsValid(Trim(exprs[|exprs| - 1]));
      WindowStores(ExpressionOf(exprs[|exprs| - 1]).value);
    }
  }

  ghost predicate Permitted(allow: seq<string>, deny: seq<string>, t: int) {
    !AnyCovers(deny, t) && (allow == [] || AnyCovers(allow, t))
  }

  /**
   A moment is permitted exactly when no deny window holds it and, if there is an allow list, some allow window does.
   The reported match is the first expression, in list order, that decided it. No evaluator at all permits every moment.
   */
  lemma DecisionMeansWindows(allow: seq<string>, deny: seq<string>, t: int)
    requires EvaluatorOf(allow, deny).Ok? && 0 <= t < WEEK
    ensures EvaluatorOf(allow, deny).value == None ==> allow == [] && deny == [] && Permitted(allow, deny, t)
    ensures EvaluatorOf(allow, deny).value.Some? ==>
      var d := Decide(EvaluatorOf(allow, deny).value.value, t);
      && (d.allowed <==> Permitted(allow, deny, t))
      && (d.allowConfigured <==> allow != [])
      && (d.matchedDeny.Some? <==> AnyCovers(deny, t))
      && (d.matchedAllow.Some? <==> d.allowed && allow != [])
      && (forall i: nat | FirstCovering(deny, t, i) :: d.matchedDeny == Some(Trim(deny[i])))
      && (forall i: nat | d.allowed && FirstCovering(allow, t, i) :: d.matchedAllow == Some(Trim(allow[i])))
  {
    hide ExpressionOf, ListOf, FirstMatch, Covers;
    MatchIsFirstCovering(deny, DenyList, t);
    MatchIsFirstCovering(allow, AllowList, t);
    NonEmptyListStores(deny, DenyList);
    NonEmptyListStores(allow, AllowList);
  }

  /** A list is accepted exactly when each of its expressions is. */
  lemma {:induction false} AcceptedEach(exprs: seq<string>, list: ListName)
    ensures ListOf(exprs, list).Ok? <==> forall e | e in exprs :: ExpressionOf(e).Ok?
  {
    hide ExpressionOf, Intervals;
    if exprs != [] {
      AcceptedEach(exprs[..|exprs| - 1], list);
      assert exprs == exprs[..|exprs| - 1] + [exprs[|exprs| - 1]];
    }
  }

  /** Lists with the same expressions are accepted alike and permit the same moments, in whatever order they are listed. */
  lemma OrderDoesNotMatter(allow: seq<string>, deny: seq<string>, allow': seq<string>, deny': seq<string>, t: int)
    requires EvaluatorOf(allow, deny).Ok? && EvaluatorOf(allow, deny).value.Some? && 0 <= t < WEEK
    requires (forall e :: e in allow <==> e in allow') && (forall e :: e in deny <==> e in deny')
    ensures EvaluatorOf(allow', deny').Ok? && EvaluatorOf(allow', deny').value.Some?
    ensures Decide(EvaluatorOf(allow, deny).value.value, t).allowed
       <==> Decide(EvaluatorOf(allow', deny').value.value, t).allowed
  {
    hide ExpressionOf, ListOf, Decide, Covers;
    assert (allow == [] <==> allow' == []) && (deny == [] <==> deny' == []) by {
      assert (allow != [] ==> allow[0] in allow) && (allow' != [] ==> allow'[0] in allow');
      assert (deny != [] ==> deny[0] in deny) && (deny' != [] ==> deny'[0] in deny');
    }
    AcceptedEach(allow, AllowList);
    AcceptedEach(allow', AllowList);
    AcceptedEach(deny, DenyList);
    AcceptedEach(deny', DenyList);
    NonEmptyListStores(allow', AllowList);
    NonEmptyListStores(deny', DenyList);
    DecisionMeansWindows(allow, deny, t);
    DecisionMeansWindows(allow', deny', t);
  }
}
