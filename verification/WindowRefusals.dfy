/** Which texts the window parser refuses, and for which error, said without the parser. */
module WindowRefusals {
  import opened Wrappers
  import opened Text
  import opened WindowLanguage
  import opened WindowSyntax
  import opened DayNames
  import opened WindowGrammar

  // ----- Times -----

  ghost predicate IsSomeNumber(s: string) {
    exists n :: IsNumber(s, n) && FitsInt(n)
  }

  /** The only colon of a text parts it so. */
  predicate OneColon(text: string, h: string, m: string) {
    text == h + [':'] + m && ':' !in h && ':' !in m
  }

  /** What is wrong with an hour and a minute: the first, in this order, of not being numbers and of not being in range. */
  ghost predicate TimeFails(h: string, m: string, e: WindowError) {
    match e
    case InvalidHour => !IsSomeNumber(h)
    case InvalidMinute => IsSomeNumber(h) && !IsSomeNumber(m)
    case HourOutOfRange => (exists n :: IsNumber(h, n) && FitsInt(n) && !(0 <= n < 24)) && IsSomeNumber(m)
    case MinuteOutOfRange =>
      (exists n :: IsNumber(h, n) && 0 <= n < 24) && (exists n :: IsNumber(m, n) && FitsInt(n) && !(0 <= n < 60))
    case _ => false
  }

  lemma NumberOrNot(s: string)
    ensures IsSomeNumber(s) <==> Atoi(s).Some?
    ensures forall n | FitsInt(n) :: IsNumber(s, n) <==> Atoi(s) == Some(n)
    ensures Atoi(s).Some? ==> FitsInt(Atoi(s).value)
  {
    AtoiFits(s);
    hide Atoi, IsNumber;
    forall n | FitsInt(n)
      ensures IsNumber(s, n) <==> Atoi(s) == Some(n)
    {
      NumberExactly(s, n);
    }
    if Atoi(s).Some? {
      assert IsNumber(s, Atoi(s).value);
    }
  }

  lemma AtoiFits(s: string)
    ensures Atoi(s).Some? ==> FitsInt(Atoi(s).value)
  {
  }

  lemma OneColonSplits(text: string, h: string, m: string)
    ensures OneColon(text, h, m) <==> Split(text, ':') == [h, m]
  {
    hide Split, Join;
    if OneColon(text, h, m) {
      SplitFirst(h, ':', m);
      SplitNone(m, ':');
    }
    if Split(text, ':') == [h, m] {
      JoinSplit(text, ':');
      JoinTwo(h, m);
      PartsHaveNone(text, ':');
      assert [h, m][0] == h && [h, m][1] == m;
    }
  }

  lemma {:induction false} PartsHaveNone(s: string, c: char)
    ensures forall i | 0 <= i < |Split(s, c)| :: c !in Split(s, c)[i]
  {
    var i := IndexOf(s, c);
    if i != -1 {
      PartsHaveNone(s[i + 1..], c);
    }
  }

  /** A text with one colon is refused as a time exactly for what is wrong with the numbers around it. */
  lemma TimeRefused(text: string, h: string, m: string, e: WindowError)
    requires OneColon(text, h, m)
    ensures TimeOfDay(text) == Err(e) <==> TimeFails(h, m, e)
  {
    OneColonSplits(text, h, m);
    NumberOrNot(h);
    NumberOrNot(m);
    hide Split, Atoi, IsNumber;
  }

  /** A text with none or with several is refused as no time at all. */
  lemma NoTimeRefused(text: string)
    ensures TimeOfDay(text) == Err(InvalidTime) <==> !exists h, m :: OneColon(text, h, m)
  {
    hide Atoi, Split, OneColon;
    var parts := Split(text, ':');
    if |parts| == 2 {
      assert parts == [parts[0], parts[1]];
      OneColonSplits(text, parts[0], parts[1]);
    }
    if h, m :| OneColon(text, h, m) {
      OneColonSplits(text, h, m);
    }
  }

  // ----- Sides -----

  /** The first such character of a text parts it so. */
  predicate CutAt(s: string, c: char, before: string, after: string) {
    s == before + [c] + after && c !in before
  }

  lemma CutFound(s: string, c: char, before: string, after: string)
    requires CutAt(s, c, before, after)
    ensures c in s && IndexOf(s, c) == |before| && s[..|before|] == before && s[|before| + 1..] == after
  {
    assert s[|before|] == c;
    assert s[..|before|] == before;
  }

  lemma CutMade(s: string, c: char)
    requires c in s
    ensures IndexOf(s, c) != -1 && CutAt(s, c, s[..IndexOf(s, c)], s[IndexOf(s, c) + 1..])
  {
  }

  lemma BlankExactly(s: string)
    ensures Trim(s) == "" <==> Blank(s)
  {
    var before, after := TrimDecomposes(s);
    if Blank(s) {
      BlankTrims(s);
    }
  }

  lemma ColonIsVisible(a: string, b: string)
    ensures Trim(a + [':'] + b) != ""
  {
    BlankExactly(a + [':'] + b);
    hide Trim;
    assert (a + [':'] + b)[|a|] == ':';
  }

  lemma AfterColon(rest: string)
    ensures IndexOf([':'] + rest, '-') == if IndexOf(rest, '-') == -1 then -1 else IndexOf(rest, '-') + 1
  {
    assert ([':'] + rest)[1..] == rest;
  }

  lemma FromColon(expr: string, a: string, rest: string)
    requires CutAt(expr, ':', a, rest)
    ensures expr[|a|..] == [':'] + rest
    ensures IndexOf(expr[|a|..], '-') == if IndexOf(rest, '-') == -1 then -1 else IndexOf(rest, '-') + 1
  {
    hide IndexOf;
    AfterColon(rest);
  }

  lemma NoDash(expr: string, a: string, rest: string)
    requires CutAt(expr, ':', a, rest) && '-' !in rest
    ensures Sides(expr) == Err(MissingDash)
  {
    CutFound(expr, ':', a, rest);
    FromColon(expr, a, rest);
    hide IndexOf, CutAt, Trim;
  }

  lemma DashCut(expr: string, a: string, rest: string, b: string, c: string)
    requires CutAt(expr, ':', a, rest) && CutAt(rest, '-', b, c)
    ensures |a| + |b| + 2 <= |expr| && expr[..|a| + |b| + 1] == a + [':'] + b && expr[|a| + |b| + 2..] == c
  {
  }

  /** The sides, by what stands around the first colon and the first dash after it. */
  lemma SidesAtCuts(expr: string, a: string, rest: string, b: string, c: string)
    requires CutAt(expr, ':', a, rest) && CutAt(rest, '-', b, c)
    ensures Sides(expr) == if Blank(c) then Err(EmptySide) else Ok((Trim(a + [':'] + b), Trim(c)))
  {
    hide CutAt, Trim, Blank, IndexOf;
    CutFound(expr, ':', a, rest);
    CutFound(rest, '-', b, c);
    FromColon(expr, a, rest);
    DashCut(expr, a, rest, b, c);
    ColonIsVisible(a, b);
    BlankExactly(c);
  }

  ghost predicate NothingAfterDash(rest: string) {
    exists b, c :: CutAt(rest, '-', b, c) && Blank(c)
  }

  lemma DashRefused(expr: string, a: string, rest: string, e: WindowError)
    requires CutAt(expr, ':', a, rest)
    ensures Sides(expr) == Err(e) <==> (e == MissingDash && '-' !in rest) || (e == EmptySide && NothingAfterDash(rest))
  {
    hide Sides, IndexOf, Blank, CutAt, Trim;
    if '-' !in rest {
      NoDash(expr, a, rest);
    } else {
      CutMade(rest, '-');
      var b, c := rest[..IndexOf(rest, '-')], rest[IndexOf(rest, '-') + 1..];
      SidesAtCuts(expr, a, rest, b, c);
    }
    forall b, c | CutAt(rest, '-', b, c)
      ensures '-' in rest && b == rest[..IndexOf(rest, '-')] && c == rest[IndexOf(rest, '-') + 1..]
    {
      CutFound(rest, '-', b, c);
    }
  }

  /** An expression has no two sides exactly when a colon is missing, a dash after the first one, or all text after that dash. */
  lemma SidesRefused(expr: string, e: WindowError)
    ensures Sides(expr) == Err(e) <==>
      match e
      case MissingTime => ':' !in expr
      case MissingDash => exists a, rest :: CutAt(expr, ':', a, rest) && '-' !in rest
      case EmptySide => exists a, rest :: CutAt(expr, ':', a, rest) && NothingAfterDash(rest)
      case _ => false
  {
    hide Sides, IndexOf, CutAt, NothingAfterDash;
    if ':' in expr {
      CutMade(expr, ':');
      var a, rest := expr[..IndexOf(expr, ':')], expr[IndexOf(expr, ':') + 1..];
      DashRefused(expr, a, rest, e);
      forall a', rest' | CutAt(expr, ':', a', rest')
        ensures a' == a && rest' == rest
      {
        CutFound(expr, ':', a', rest');
      }
    } else {
      NoColon(expr);
    }
  }

  lemma NoColon(expr: string)
    requires ':' !in expr
    ensures Sides(expr) == Err(MissingTime) && forall a, rest :: !CutAt(expr, ':', a, rest)
  {
    forall a: string, rest: string
      ensures !CutAt(expr, ':', a, rest)
    {
      assert (a + [':'] + rest)[|a|] == ':';
    }
  }

  // ----- Days -----

  /** The text is a day, white space around it aside. */
  ghost predicate NamesDay(text: string) {
    exists day, before, word, after :: Surrounds(before, after, word, text) && DayWord(day, word).Valid()
  }

  lemma NamesDayExactly(text: string)
    ensures NamesDay(text) <==> DayName(text).Some?
  {
    hide DayName, Surrounds, DayWord.Valid;
    if DayName(text).Some? {
      DayNameExactly(text, DayName(text).value);
    }
    if day, before, word, after :| Surrounds(before, after, word, text) && DayWord(day, word).Valid() {
      DayNameExactly(text, day);
    }
  }

  /** The first of the names in a part, around its first dash if it has one, that is no day. */
  ghost predicate FirstUnknown(part: string, name: string) {
    if '-' !in part then name == part && !NamesDay(part)
    else exists l, r :: CutAt(part, '-', l, r) && (if NamesDay(l) then name == r && !NamesDay(r) else name == l)
  }

  /** A part of a day list is refused exactly when it is blank, or for the first name in it that is no day. */
  lemma PartRefused(text: string, e: WindowError)
    ensures PartDays(text) == Err(e) <==>
      match e
      case EmptyDayPart => Blank(text)
      case UnknownDay(name) => exists part :: Trims(text, part) && FirstUnknown(part, name)
      case _ => false
  {
    var part := Trim(text);
    BlankExactly(text);
    TrimsExactly(text, part);
    UnknownInPart(text, e);
    hide PartDays, Trim, FirstUnknown, Trims, Blank;
    forall p | Trims(text, p)
      ensures p == part
    {
      TrimsExactly(text, p);
    }
  }

  lemma UnknownInPart(text: string, e: WindowError)
    ensures PartDays(text) == Err(e)
       <==> if Trim(text) == "" then e == EmptyDayPart else e.UnknownDay? && FirstUnknown(Trim(text), e.name)
  {
    var part := Trim(text);
    hide Trim, IndexOf, DayName, NamesDay, CutAt, DayRange;
    if '-' in part {
      CutMade(part, '-');
      NamesDayExactly(part[..IndexOf(part, '-')]);
      NamesDayExactly(part[IndexOf(part, '-') + 1..]);
      forall l, r | CutAt(part, '-', l, r)
        ensures l == part[..IndexOf(part, '-')] && r == part[IndexOf(part, '-') + 1..]
      {
        CutFound(part, '-', l, r);
      }
    } else {
      NamesDayExactly(part);
    }
  }

  ghost predicate FirstRefused(parts: seq<string>, i: nat, e: WindowError) {
    i < |parts| && PartDays(parts[i]) == Err(e) && forall j | 0 <= j < i :: PartDays(parts[j]).Ok?
  }

  /** A list of parts is refused for the first of them that is. */
  lemma {:induction false} PartsRefused(parts: seq<string>, e: WindowError)
    ensures PartsDays(parts) == Err(e) <==> exists i: nat :: FirstRefused(parts, i, e)
    ensures PartsDays(parts).Ok? <==> forall i | 0 <= i < |parts| :: PartDays(parts[i]).Ok?
  {
    hide PartDays;
    if parts != [] {
      var n := |parts| - 1;
      PartsRefused(parts[..n], e);
      assert forall i | 0 <= i < n :: parts[..n][i] == parts[i];
      if PartsDays(parts) == Err(e) && PartsDays(parts[..n]).Ok? {
        assert FirstRefused(parts, n, e);
      }
      if i: nat :| FirstRefused(parts[..n], i, e) {
        assert FirstRefused(parts, i, e);
      }
      if i: nat :| FirstRefused(parts, i, e) {
        assert i < n ==> FirstRefused(parts[..n], i, e);
      }
    }
  }

  lemma PartSome(text: string)
    ensures PartDays(text).Ok? ==> PartDays(text).value != []
  {
    hide DayName, Trim, IndexOf;
  }

  lemma {:induction false} PartsSome(parts: seq<string>)
    requires parts != [] && PartsDays(parts).Ok?
    ensures PartsDays(parts).value != []
  {
    hide PartDays;
    PartSome(parts[|parts| - 1]);
  }

  lemma ListRefused(parts: seq<string>, e: WindowError)
    requires parts != []
    ensures DayListOf(parts) == Err(e) <==> exists i: nat :: FirstRefused(parts, i, e)
  {
    PartsRefused(parts, e);
    hide Distinct, FirstRefused;
    if PartsDays(parts).Ok? {
      PartsSome(parts);
      var days := PartsDays(parts).value;
      assert days[0] in Distinct(days);
    }
  }

  /** Days are refused exactly when there are none, or for the first part of them that is, and never for coming to nothing. */
  lemma DaysRefused(text: string, e: WindowError)
    ensures DaySpecOf(text) == Err(e) <==>
      if Blank(text) then e == EmptyDaySpec
      else Lower(Trim(text)) != "*" && exists i: nat :: FirstRefused(Split(Lower(Trim(text)), ','), i, e)
  {
    BlankExactly(text);
    hide Trim, Blank, Split, DayListOf, FirstRefused;
    var lowered := Lower(Trim(text));
    assert |lowered| == |Trim(text)|;
    ListRefused(Split(lowered, ','), e);
    if lowered != "" && lowered != "*" {
      assert DaySpecOf(text) == DayListOf(Split(lowered, ','));
    }
  }
}
