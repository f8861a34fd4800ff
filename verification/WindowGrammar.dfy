/**
 The window language as a grammar over texts: which texts are times, day lists and window expressions, and what they stand for,
 said without the parser. The parser accepts exactly these and reads them so.
 */
module WindowGrammar {
  import opened Wrappers
  import opened Text
  import opened WindowLanguage
  import opened WindowSyntax
  import opened DayNames
  import opened WindowText
  import opened WindowEvaluator

  // ----- Texts and white space -----

  /** The text without the white space around it. */
  ghost predicate Trims(text: string, core: string) {
    Visible(core) && exists before, after :: Surrounds(before, after, core, text)
  }

  lemma TrimEnds(s: string)
    ensures Trim(s) == "" || Visible(Trim(s))
  {
    LeftEnd(s);
    RightEnds(TrimLeft(s));
  }

  lemma {:induction false} LeftEnd(s: string)
    ensures TrimLeft(s) != "" ==> !IsSpace(TrimLeft(s)[0])
  {
    if s != "" && IsSpace(s[0]) {
      LeftEnd(s[1..]);
    }
  }

  lemma {:induction false} RightEnds(s: string)
    ensures TrimRight(s) != "" ==> !IsSpace(TrimRight(s)[|TrimRight(s)| - 1]) && s != "" && TrimRight(s)[0] == s[0]
  {
    if s != "" && IsSpace(s[|s| - 1]) {
      RightEnds(s[..|s| - 1]);
    }
  }

  lemma TrimsExactly(text: string, core: string)
    ensures Trims(text, core) <==> Trim(text) == core && core != ""
  {
    TrimEnds(text);
    var before, after := TrimDecomposes(text);
    assert Surrounds(before, after, Trim(text), text);
    if b, a :| Surrounds(b, a, core, text) {
      hide Trim;
      if Visible(core) {
        TrimPadded(b, core, a);
      }
    }
  }

  // ----- Days -----

  ghost predicate IsItem(text: string, item: DayItem) {
    item.Valid() && item.Write() == text
  }

  /** A valid item is read as its days, without being lowered first. */
  lemma ItemIsRead(item: DayItem)
    requires item.Valid()
    ensures PartDays(item.Write()) == Ok(item.core.Days())
  {
    hide DayName, PartDays, Visible, DayWord.Valid, Blank;
    CoreIsVisible(item.core);
    PartPadded(item.before, item.core.Write(), item.after);
    match item.core
    case Single(word) =>
      WordIsName(word);
      NameIsPlain(word.text);
      PartOfName(word.text);
    case Range(first, beforeDash, afterDash, last) =>
      WordIsName(first);
      WordIsName(last);
      NameIsPlain(first.text);
      PartOfRange(first.text, beforeDash, afterDash, last.text);
  }

  lemma NoPadBefore(before: string, text: string, after: string, s: string)
    requires Surrounds(before, after, text, s) && s != "" && !IsSpace(s[0])
    ensures before == ""
  {
  }

  lemma NoPadAfter(before: string, text: string, after: string, s: string)
    requires Surrounds(before, after, text, s) && s != "" && !IsSpace(s[|s| - 1])
    ensures after == ""
  {
  }

  /** Whatever is read as a day, when it begins and ends visibly, is a written day. */
  lemma SingleFromText(part: string) returns (word: DayWord)
    requires DayName(part).Some? && Visible(part)
    ensures word.Valid() && word.text == part && DayName(part) == Some(word.day)
  {
    hide DayName, DayWord.Valid, IsSpace;
    var before, after;
    word, before, after := ReadIsWord(part);
    NoPadBefore(before, word.text, after, part);
    NoPadAfter(before, word.text, after, part);
    assert part == "" + word.text + "";
  }

  lemma RangeFromText(left: string, right: string) returns (core: Core)
    requires DayName(left).Some? && DayName(right).Some? && Visible(left + ['-'] + right)
    ensures core.Valid() && core.Write() == left + ['-'] + right
    ensures core.Days() == DayRange(DayName(left).value, DayName(right).value)
  {
    hide DayName, DayWord.Valid, IsSpace, DayRange;
    var part := left + ['-'] + right;
    var first, b1, a1 := ReadIsWord(left);
    var last, b2, a2 := ReadIsWord(right);
    WordIsSolid(first);
    WordIsSolid(last);
    assert part[0] == left[0] && part[|part| - 1] == right[|right| - 1];
    NoPadBefore(b1, first.text, a1, left);
    NoPadAfter(b2, last.text, a2, right);
    core := Range(first, a1, b2, last);
    assert left == first.text + a1 && right == b2 + last.text;
  }

  lemma WordIsSolid(word: DayWord)
    requires word.Valid()
    ensures word.text != ""
  {
    WordIsName(word);
  }

  lemma PartAtFirstDash(part: string) returns (left: string, right: string)
    requires IndexOf(part, '-') != -1
    ensures part == left + ['-'] + right && left == part[..IndexOf(part, '-')] && right == part[IndexOf(part, '-') + 1..]
  {
    var dash := IndexOf(part, '-');
    left, right := part[..dash], part[dash + 1..];
  }

  lemma CoreFromText(part: string) returns (core: Core)
    requires PartDays(part).Ok? && Trim(part) == part
    ensures core.Valid() && core.Write() == part && PartDays(part) == Ok(core.Days())
  {
    TrimEnds(part);
    hide DayName, DayWord.Valid, Trim, DayRange, Visible;
    if IndexOf(part, '-') != -1 {
      var left, right := PartAtFirstDash(part);
      core := RangeFromText(left, right);
    } else {
      var word := SingleFromText(part);
      core := Single(word);
    }
  }

  lemma PartTrimmed(text: string)
    ensures PartDays(Trim(text)) == PartDays(text) && (PartDays(text).Ok? ==> Trim(text) != "" && Trim(Trim(text)) == Trim(text))
  {
    TrimEnds(text);
    if Trim(text) != "" {
      VisibleTrims(Trim(text));
      SameTrimmed(text, Trim(text));
    }
  }

  /** A part of a day list is read as some days exactly when it is a day or a range, written, of these days. */
  lemma PartExactly(text: string, days: seq<Weekday>)
    ensures PartDays(text) == Ok(days) <==> exists item :: IsItem(text, item) && item.core.Days() == days
  {
    if PartDays(text) == Ok(days) {
      PartTrimmed(text);
      hide PartDays, Trim, Core.Valid, Core.Write, Core.Days;
      var core := CoreFromText(Trim(text));
      var before, after := TrimDecomposes(text);
      assert IsItem(text, DayItem(before, core, after));
    }
    if item :| IsItem(text, item) && item.core.Days() == days {
      ItemIsRead(item);
    }
  }

  /** Every day, by its full name or the first three letters of it, each letter in either case, is read as that day alone. */
  lemma EveryDayIsRead(day: Weekday, text: string, before: string, after: string)
    requires Spells(text, DAYS[day]) || Spells(text, DAYS[day][..3])
    requires Blank(before) && Blank(after)
    ensures PartDays(before + text + after) == Ok([day])
  {
    var item := DayItem(before, Single(DayWord(day, text)), after);
    assert DAYS[day] in Spellings(day) && DAYS[day][..3] in Spellings(day);
    hide PartDays, Spells, Spellings, Blank;
    assert IsItem(item.Write(), item);
    PartExactly(item.Write(), item.core.Days());
  }

  /** Whatever is read as a single day begins, white space aside, with the first three letters of that day in either case. */
  lemma ReadDayBegins(text: string, day: Weekday) returns (before: string, word: string, after: string)
    requires DayName(text) == Some(day)
    ensures Surrounds(before, after, word, text) && |word| >= 3 && Spells(word[..3], DAYS[day][..3])
  {
    hide DayName, Surrounds, Spells, Spellings;
    var found;
    found, before, after := ReadIsWord(text);
    word := found.text;
    var spelling :| spelling in Spellings(day) && Spells(word, spelling);
    SpellingsBegin(day, spelling);
    FirstThree(word, spelling);
  }

  lemma FirstThree(word: string, spelling: string)
    requires Spells(word, spelling) && |spelling| >= 3
    ensures |word| >= 3 && Spells(word[..3], spelling[..3])
  {
    hide CaseOf;
  }

  // ----- Day lists -----

  /** The text is days, written as a star or as a list, of these days; white space around it aside. */
  ghost predicate IsDays(text: string, days: seq<Weekday>) {
    exists w: WrittenDays :: DaysWritten(text, w) && w.Days() == days
  }

  ghost predicate DaysWritten(text: string, w: WrittenDays) {
    w.Valid() && !w.Unwritten? && Trims(text, w.Write())
  }

  lemma DaySpecTrimmed(spec: string)
    ensures DaySpecOf(Trim(spec)) == DaySpecOf(spec)
  {
    TrimEnds(spec);
    if Trim(spec) != "" {
      VisibleTrims(Trim(spec));
    }
  }

  lemma TrimInLower(s: string)
    ensures Trim(Lower(s)) == Lower(Trim(s))
  {
    var before, after := TrimDecomposes(s);
    var core := Trim(s);
    TrimEnds(s);
    hide Trim, Lower, LowerChar;
    LowerConcat(before + core, after);
    LowerConcat(before, core);
    SolidInLower(before);
    SolidInLower(after);
    if core != "" {
      LowerVisible(core);
      TrimPadded(Lower(before), Lower(core), Lower(after));
    } else {
      BlankTrims(Lower(before) + Lower(after));
      LowerOfNothing();
      assert Lower(s) == Lower(before) + Lower(after);
    }
  }

  lemma LowerOfNothing()
    ensures Lower("") == ""
  {
  }

  lemma LowerVisible(s: string)
    requires Visible(s)
    ensures Visible(Lower(s))
  {
    SpaceInLower(s[0]);
    SpaceInLower(s[|s| - 1]);
  }

  lemma {:induction false} BlankTrims(s: string)
    requires Blank(s)
    ensures Trim(s) == ""
  {
    if s != "" {
      BlankTrims(s[1..]);
    }
  }

  lemma LowerTail(s: string)
    requires s != ""
    ensures Lower(s) == [LowerChar(s[0])] + Lower(s[1..]) && Lower(s)[0] == LowerChar(s[0]) && Lower(s)[1..] == Lower(s[1..])
  {
    hide LowerChar;
    var head, tail := [LowerChar(s[0])], Lower(s[1..]);
    assert Lower(s) == head + tail;
    hide Lower;
    assert (head + tail)[1..] == tail;
  }

  lemma MarkInLower(a: char, c: char)
    requires c == '-' || c == ',' || c == ':'
    ensures LowerChar(a) == c <==> a == c
  {
  }

  lemma {:induction false} IndexInLower(s: string, c: char)
    requires c == '-' || c == ',' || c == ':'
    ensures IndexOf(Lower(s), c) == IndexOf(s, c)
  {
    hide Lower, LowerChar;
    LowerOfNothing();
    if s != "" {
      LowerTail(s);
      MarkInLower(s[0], c);
      IndexInLower(s[1..], c);
    }
  }

  lemma DayNameInLower(s: string)
    ensures DayName(Lower(s)) == DayName(s)
  {
    LowerIdempotent(s);
  }

  lemma LowerThree(a: string, b: string, c: string)
    requires |b| == 1
    ensures Lower(a + b + c)[..|a|] == Lower(a) && Lower(a + b + c)[|a| + 1..] == Lower(c)
  {
    LowerConcat(a + b, c);
    LowerConcat(a, b);
    var x, y, z := Lower(a), Lower(b), Lower(c);
    hide Lower, LowerChar;
    CutAround(x, y, z);
  }

  lemma Around(s: string, i: nat)
    requires i < |s|
    ensures s == s[..i] + [s[i]] + s[i + 1..]
  {
  }

  lemma LowerAround(s: string, i: nat)
    requires i < |s|
    ensures Lower(s)[..i] == Lower(s[..i]) && Lower(s)[i + 1..] == Lower(s[i + 1..])
  {
    hide *;
    Around(s, i);
    LowerThree(s[..i], [s[i]], s[i + 1..]);
  }

  lemma CutAround(a: string, b: string, c: string)
    requires |b| == 1
    ensures (a + b + c)[..|a|] == a && (a + b + c)[|a| + 1..] == c
  {
  }

  /** A part is read the same in small letters. */
  lemma PartInLower(part: string)
    requires PartDays(Lower(part)).Ok?
    ensures PartDays(part) == PartDays(Lower(part))
  {
    hide Trim, Lower, DayName, IndexOf, DayRange;
    TrimInLower(part);
    var core := Trim(part);
    var dash := IndexOf(core, '-');
    IndexInLower(core, '-');
    DayNameInLower(core);
    if dash != -1 {
      LowerAround(core, dash);
      DayNameInLower(core[..dash]);
      DayNameInLower(core[dash + 1..]);
    }
    LowerOfNothing();
  }

  lemma {:induction false} SplitInLower(s: string)
    ensures Split(Lower(s), ',') == LowerAll(Split(s, ','))
    decreases |s|
  {
    hide IndexOf, Lower, LowerAll;
    IndexInLower(s, ',');
    var i := IndexOf(s, ',');
    if i != -1 {
      LowerAround(s, i);
      SplitInLower(s[i + 1..]);
      LowerAllStep(s[..i], Split(s[i + 1..], ','));
    } else {
      LowerAllStep(s, []);
      assert [s] + [] == [s] && [Lower(s)] + [] == [Lower(s)];
    }
  }

  lemma LowerAllStep(part: string, parts: seq<string>)
    ensures LowerAll([part] + parts) == [Lower(part)] + LowerAll(parts) && LowerAll([]) == []
  {
    hide Lower;
  }

  lemma {:induction false} JoinSplit(s: string, c: char)
    ensures Join(Split(s, c), [c]) == s
  {
    var i := IndexOf(s, c);
    if i == -1 {
      assert Split(s, c) == [s];
    } else {
      hide IndexOf;
      JoinSplit(s[i + 1..], c);
      JoinMore(s[..i], Split(s[i + 1..], c), c);
      assert s == s[..i] + [c] + s[i + 1..];
    }
  }

  lemma JoinMore(first: string, rest: seq<string>, c: char)
    requires rest != []
    ensures Join([first] + rest, [c]) == first + [c] + Join(rest, [c])
  {
    assert ([first] + rest)[1..] == rest;
  }

  lemma ItemFromPart(part: string) returns (item: DayItem)
    requires PartDays(Lower(part)).Ok?
    ensures item.Valid() && item.Write() == part && PartDays(Lower(part)) == Ok(item.core.Days())
  {
    hide PartDays, DayItem.Valid, DayItem.Write, Core.Days, Lower;
    PartInLower(part);
    PartExactly(part, PartDays(part).value);
    item :| IsItem(part, item) && item.core.Days() == PartDays(part).value;
  }

  lemma LastPart(parts: seq<string>)
    requires parts != [] && PartsDays(LowerAll(parts)).Ok?
    ensures var n := |parts| - 1;
      && PartsDays(LowerAll(parts[..n])).Ok? && PartDays(Lower(parts[n])).Ok?
      && PartsDays(LowerAll(parts)).value == PartsDays(LowerAll(parts[..n])).value + PartDays(Lower(parts[n])).value
  {
    hide PartDays, Lower;
    assert LowerAll(parts)[..|parts| - 1] == LowerAll(parts[..|parts| - 1]);
  }

  lemma NoParts()
    ensures PartsDays(LowerAll([])) == Ok([]) && ItemsDays([]) == [] && WriteItems([]) == []
  {
  }

  /** Parts that are read as days are written items of these days. */
  lemma {:induction false} ItemsFromParts(parts: seq<string>) returns (items: seq<DayItem>)
    requires PartsDays(LowerAll(parts)).Ok?
    ensures WriteItems(items) == parts && (forall i | 0 <= i < |items| :: items[i].Valid())
    ensures ItemsDays(items) == PartsDays(LowerAll(parts)).value
  {
    hide *;
    if parts == [] {
      NoParts();
      items := [];
    } else {
      var n := |parts| - 1;
      LastPart(parts);
      var before := ItemsFromParts(parts[..n]);
      var item := ItemFromPart(parts[n]);
      items := before + [item];
      OneMoreItem(before, item);
      assert parts == parts[..n] + [parts[n]];
    }
  }

  lemma OneMoreItem(items: seq<DayItem>, item: DayItem)
    requires item.Valid() && forall i | 0 <= i < |items| :: items[i].Valid()
    ensures forall i | 0 <= i < |items + [item]| :: (items + [item])[i].Valid()
    ensures ItemsDays(items + [item]) == ItemsDays(items) + item.core.Days()
    ensures WriteItems(items + [item]) == WriteItems(items) + [item.Write()]
  {
    hide DayItem.Valid, DayItem.Write, Core.Days;
    assert (items + [item])[..|items|] == items;
  }

  lemma PartsCover(x: string)
    ensures var parts := Split(x, ',');
      && (parts[0] != "" ==> x != "" && x[0] == parts[0][0])
      && (parts[|parts| - 1] != "" ==> x != "" && x[|x| - 1] == parts[|parts| - 1][|parts[|parts| - 1]| - 1])
  {
    var parts := Split(x, ',');
    JoinSplit(x, ',');
    hide Split;
    if |parts| == 1 {
      JoinedOne(parts[0]);
    } else {
      assert parts == [parts[0]] + parts[1..];
      JoinedStep(parts[0], parts[1..]);
      if parts[|parts| - 1] != "" {
        JoinedTail(parts);
      }
    }
  }

  lemma ItemEnds(text: string, item: DayItem)
    requires IsItem(text, item)
    ensures text != ""
    ensures !IsSpace(text[0]) ==> item.before == ""
    ensures !IsSpace(text[|text| - 1]) ==> item.after == ""
  {
    CoreIsVisible(item.core);
    hide Core.Valid, Core.Write, IsSpace, Visible;
    var core := item.core.Write();
    assert Surrounds(item.before, item.after, core, text);
    VisibleSome(core);
    if !IsSpace(text[0]) {
      NoPadBefore(item.before, core, item.after, text);
    }
    if !IsSpace(text[|text| - 1]) {
      NoPadAfter(item.before, core, item.after, text);
    }
  }

  lemma VisibleSome(s: string)
    requires Visible(s)
    ensures s != ""
  {
  }

  /** A visible list that is read as days is a written one, of these days. */
  lemma ListFromText(x: string) returns (items: seq<DayItem>)
    requires Visible(x) && PartsDays(Split(Lower(x), ',')).Ok?
    ensures Listed(items).Valid() && Listed(items).Write() == x
    ensures ItemsDays(items) == PartsDays(Split(Lower(x), ',')).value
  {
    hide PartsDays, DayItem.Valid, DayItem.Write, Lower, Split, IsSpace, Join;
    var parts := Split(x, ',');
    SplitInLower(x);
    items := ItemsFromParts(parts);
    JoinSplit(x, ',');
    PartsCover(x);
    var n := |parts| - 1;
    ItemEnds(parts[0], items[0]);
    ItemEnds(parts[n], items[n]);
  }

  lemma StarInLower(x: string)
    ensures Lower(x) == "*" <==> x == "*"
  {
    if Lower(x) == "*" {
      assert LowerChar(x[0]) == '*';
    }
    assert Lower("*") == "*";
  }

  /** A text is read as days exactly when it is days, written, and then as these. */
  lemma DaysExactly(text: string, days: seq<Weekday>)
    ensures DaySpecOf(text) == Ok(days) <==> IsDays(text, days)
  {
    var x := Trim(text);
    TrimEnds(text);
    hide Trims, PartsDays, Trim, Lower, Split, Visible, WrittenDays.Valid;
    if DaySpecOf(text) == Ok(days) {
      WrittenFromText(text, days);
    }
    if IsDays(text, days) {
      var w: WrittenDays :| DaysWritten(text, w) && w.Days() == days;
      TrimsExactly(text, w.Write());
      hide DaySpecOf, WrittenDays.Days, WrittenDays.Write;
      ReadDays(w);
      DaySpecTrimmed(text);
    }
  }

  lemma WrittenFromText(text: string, days: seq<Weekday>)
    requires DaySpecOf(text) == Ok(days)
    ensures IsDays(text, days)
  {
    var x := Trim(text);
    TrimEnds(text);
    StarInLower(x);
    LowerOfNothing();
    hide Trim, Lower, Split, PartsDays, Visible;
    TrimsExactly(text, x);
    hide Trims;
    if x == "*" {
      assert DaysWritten(text, Star);
    } else {
      var items := ListFromText(x);
      assert DaysWritten(text, Listed(items));
    }
  }

  // ----- Times -----

  function Pow10(k: nat): nat {
    if k == 0 then 1 else 10 * Pow10(k - 1)
  }

  /** The value of decimal digits, each by its place. */
  function Positional(s: string): nat
    requires AllDigits(s)
  {
    if s == "" then 0 else assert IsDigit(s[0]); (s[0] as int - 48) * Pow10(|s| - 1) + Positional(s[1..])
  }

  lemma {:induction false} LastPlace(s: string)
    requires s != "" && AllDigits(s)
    ensures IsDigit(s[|s| - 1]) && Positional(s) == 10 * Positional(s[..|s| - 1]) + (s[|s| - 1] as int - 48)
  {
    var n := |s| - 1;
    assert IsDigit(s[0]) && IsDigit(s[n]);
    if n > 0 {
      LastPlace(s[1..]);
      assert s[1..][..n - 1] == s[..n][1..];
      TenTimes(s[0] as int - 48, Pow10(n - 1));
    }
  }

  lemma TenTimes(d: int, p: int)
    ensures d * (10 * p) == 10 * (d * p)
  {
  }

  lemma {:induction false} DigitsByPlace(s: string)
    requires AllDigits(s)
    ensures DigitsValue(s) == Positional(s)
  {
    if s != "" {
      LastPlace(s);
      DigitsByPlace(s[..|s| - 1]);
    }
  }

  /** The text is a decimal number with an optional sign. */
  predicate Signed(s: string, sign: string, digits: string, n: int) {
    && s == sign + digits && sign in {"", "+", "-"} && digits != "" && AllDigits(digits)
    && (if sign == "-" then -n else n) == Positional(digits)
  }

  ghost predicate IsNumber(s: string, n: int) {
    exists sign, digits :: Signed(s, sign, digits, n)
  }

  predicate FitsInt(n: int) {
    -MAX_INT64 - 1 <= n <= MAX_INT64
  }

  lemma SignOf(s: string) returns (sign: string, digits: string)
    ensures s == sign + digits && sign in {"", "+", "-"}
    ensures digits == if s != "" && (s[0] == '+' || s[0] == '-') then s[1..] else s
    ensures sign == "-" <==> s != "" && s[0] == '-'
  {
    if s != "" && (s[0] == '+' || s[0] == '-') {
      sign, digits := [s[0]], s[1..];
    } else {
      sign, digits := "", s;
    }
  }

  lemma SignIsFound(s: string, sign: string, digits: string, n: int)
    requires Signed(s, sign, digits, n)
    ensures digits == if s != "" && (s[0] == '+' || s[0] == '-') then s[1..] else s
    ensures sign == "-" <==> s != "" && s[0] == '-'
  {
    assert IsDigit(digits[0]);
    if sign == "" {
      assert s == digits;
    } else {
      assert s[0] == sign[0] && s[1..] == digits;
    }
  }

  lemma NumberExactly(s: string, n: int)
    requires FitsInt(n)
    ensures Atoi(s) == Some(n) <==> IsNumber(s, n)
  {
    hide Positional, DigitsValue;
    if Atoi(s) == Some(n) {
      var sign, digits := SignOf(s);
      DigitsByPlace(digits);
      assert Signed(s, sign, digits, n);
    }
    if sign, digits :| Signed(s, sign, digits, n) {
      SignIsFound(s, sign, digits, n);
      DigitsByPlace(digits);
    }
  }

  lemma NumberHasNoColon(s: string, n: int)
    requires IsNumber(s, n)
    ensures ':' !in s
  {
    var sign, digits :| Signed(s, sign, digits, n);
    hide Positional;
    forall i | 0 <= i < |s|
      ensures s[i] != ':'
    {
      if i >= |sign| {
        assert IsDigit(digits[i - |sign|]) && s[i] == digits[i - |sign|];
      }
    }
  }

  /** The text is an hour and a minute of the day with a colon between them. */
  ghost predicate TimeParts(text: string, h: string, m: string, hour: int, minute: int) {
    && text == h + [':'] + m && IsNumber(h, hour) && IsNumber(m, minute)
    && 0 <= hour < 24 && 0 <= minute < 60
  }

  ghost predicate IsTime(text: string, seconds: nat) {
    exists h, m, hour, minute :: TimeParts(text, h, m, hour, minute) && seconds == hour * 3600 + minute * 60
  }

  lemma SplitNone(s: string, c: char)
    requires c !in s
    ensures Split(s, c) == [s]
  {
  }

  lemma TimeIsRead(text: string, h: string, m: string, hour: int, minute: int)
    requires TimeParts(text, h, m, hour, minute)
    ensures TimeOfDay(text) == Ok(hour * 3600 + minute * 60)
  {
    hide IsNumber, Atoi, Split;
    NumberHasNoColon(h, hour);
    NumberHasNoColon(m, minute);
    SplitFirst(h, ':', m);
    SplitNone(m, ':');
    NumberExactly(h, hour);
    NumberExactly(m, minute);
  }

  /** A text is read as a time exactly when it is one, and then as its seconds. */
  lemma TimeExactly(text: string, seconds: nat)
    ensures TimeOfDay(text) == Ok(seconds) <==> IsTime(text, seconds)
  {
    hide Atoi, Split, IsNumber;
    if TimeOfDay(text) == Ok(seconds) {
      var parts := Split(text, ':');
      JoinSplit(text, ':');
      var h, m := parts[0], parts[1];
      JoinTwo(h, m);
      assert parts == [h, m];
      NumberExactly(h, Atoi(h).value);
      NumberExactly(m, Atoi(m).value);
      assert TimeParts(text, h, m, Atoi(h).value, Atoi(m).value);
    }
    if IsTime(text, seconds) {
      var h, m, hour, minute :| TimeParts(text, h, m, hour, minute) && seconds == hour * 3600 + minute * 60;
      TimeIsRead(text, h, m, hour, minute);
    }
  }

  lemma JoinTwo(h: string, m: string)
    ensures Join([h, m], [':']) == h + [':'] + m
  {
    assert [h, m][1..] == [m];
  }

  // ----- Sides and whole expressions -----

  /** The first dash after the first colon parts the text; each side is a visible text with white space around it. */
  ghost predicate PartedAt(expr: string, a: string, b: string, rest: string, from: string, to: string) {
    && expr == (a + [':'] + b) + ['-'] + rest && ':' !in a && '-' !in b
    && Trims(a + [':'] + b, from) && Trims(rest, to)
  }

  ghost predicate IsSides(expr: string, from: string, to: string) {
    exists a, b, rest :: PartedAt(expr, a, b, rest, from, to)
  }

  lemma Parted(expr: string) returns (a: string, b: string, rest: string)
    requires Sides(expr).Ok?
    ensures expr == (a + [':'] + b) + ['-'] + rest && ':' !in a && '-' !in b
    ensures Sides(expr) == Ok((Trim(a + [':'] + b), Trim(rest)))
  {
    hide Trim;
    var colon := IndexOf(expr, ':');
    var after := IndexOf(expr[colon..], '-');
    a, b, rest := expr[..colon], expr[colon + 1..colon + after], expr[colon + after + 1..];
    hide IndexOf;
    assert expr[colon..][after] == '-' && expr[colon] == ':';
    assert expr[..colon + after] == a + [':'] + b;
    forall i | 0 <= i < |b|
      ensures b[i] != '-'
    {
      assert b[i] == expr[colon..][..after][i + 1];
    }
  }

  lemma SidesExactly(expr: string, from: string, to: string)
    ensures Sides(expr) == Ok((from, to)) <==> IsSides(expr, from, to)
  {
    hide Trim, Trims, Sides;
    if Sides(expr) == Ok((from, to)) {
      SidesVisible(expr);
      var a, b, rest := Parted(expr);
      TrimsExactly(a + [':'] + b, from);
      TrimsExactly(rest, to);
      assert PartedAt(expr, a, b, rest, from, to);
    }
    if a, b, rest :| PartedAt(expr, a, b, rest, from, to) {
      TrimsExactly(a + [':'] + b, from);
      TrimsExactly(rest, to);
      SidesAround(a, b, rest, expr);
    }
  }

  lemma SidesVisible(expr: string)
    ensures Sides(expr).Ok? ==> Sides(expr).value.0 != "" && Sides(expr).value.1 != ""
  {
    hide Trim;
  }

  /** The last word of the side is a time; the words before it, if any, are days. */
  ghost predicate SideParts(part: string, words: seq<string>, time: string, days: Option<seq<Weekday>>, seconds: nat) {
    && Fields(part) == words + [time] && IsTime(time, seconds)
    && (if days.None? then words == [] else words != [] && IsDays(Join(words, " "), days.value))
  }

  ghost predicate IsSide(part: string, days: Option<seq<Weekday>>, seconds: nat) {
    exists words, time :: SideParts(part, words, time, days, seconds)
  }

  lemma LastWord(tokens: seq<string>, words: seq<string>, time: string)
    requires tokens == words + [time]
    ensures tokens != [] && tokens[|tokens| - 1] == time && tokens[..|tokens| - 1] == words
  {
  }

  /** The end of a window is read as days, if any, and a time exactly when it is these, written. */
  lemma EndExactly(part: string, days: Option<seq<Weekday>>, seconds: nat)
    ensures EndPartOf(part) == Ok(EndPart(days, seconds)) <==> IsSide(part, days, seconds)
  {
    hide TimeOfDay, DaySpecOf, Fields, Join, IsTime, IsDays;
    var tokens := Fields(part);
    if EndPartOf(part) == Ok(EndPart(days, seconds)) {
      var words, time := tokens[..|tokens| - 1], tokens[|tokens| - 1];
      TimeExactly(time, seconds);
      if days.Some? {
        DaysExactly(Join(words, " "), days.value);
      }
      assert SideParts(part, words, time, days, seconds);
    }
    if words, time :| SideParts(part, words, time, days, seconds) {
      LastWord(tokens, words, time);
      TimeExactly(time, seconds);
      if days.Some? {
        DaysExactly(Join(words, " "), days.value);
      }
    }
  }

  /** So is the start, which stands for every day when none are written. */
  lemma StartExactly(part: string, days: seq<Weekday>, seconds: nat)
    ensures DayAndTimeOf(part) == Ok(DayAndTime(days, seconds))
       <==> IsSide(part, Some(days), seconds) || (IsSide(part, None, seconds) && days == [0, 1, 2, 3, 4, 5, 6])
  {
    StartIsEnd(part);
    StarIsEveryDay();
    hide DayAndTimeOf, EndPartOf, IsSide;
    EndExactly(part, Some(days), seconds);
    EndExactly(part, None, seconds);
  }

  lemma StarIsEveryDay()
    ensures DaySpecOf("*") == Ok([0, 1, 2, 3, 4, 5, 6])
  {
    ReadDays(Star);
  }

  /** The start of a window is read as an end would be, but for the days that are not written. */
  lemma StartIsEnd(part: string)
    ensures DayAndTimeOf(part)
         == match EndPartOf(part)
            case Err(e) => Err(e)
            case Ok(end) => Ok(DayAndTime(if end.days.Some? then end.days.value else [0, 1, 2, 3, 4, 5, 6], end.seconds))
  {
    StarIsEveryDay();
    hide TimeOfDay, DaySpecOf, Fields, Join;
  }

  /** The two sides and the window they make. */
  ghost predicate SidesMake(expr: string, from: string, to: string, endDays: Option<seq<Weekday>>, w: Window) {
    && IsSides(expr, from, to) && IsSide(to, endDays, w.end)
    && (IsSide(from, Some(w.days), w.start) || (IsSide(from, None, w.start) && w.days == [0, 1, 2, 3, 4, 5, 6]))
    && (if endDays.None? then w.endDay == None
        else |w.days| == 1 && |endDays.value| == 1 && w.endDay == Some(endDays.value[0]))
  }

  ghost predicate Describes(expr: string, w: Window) {
    exists from, to, endDays :: SidesMake(expr, from, to, endDays, w)
  }

  lemma Made(expr: string, from: string, to: string, endDays: Option<seq<Weekday>>, w: Window)
    requires SidesMake(expr, from, to, endDays, w)
    ensures WindowOf(expr) == Ok(w)
  {
    hide Sides, DayAndTimeOf, EndPartOf, IsSides, IsSide;
    SidesExactly(expr, from, to);
    StartExactly(from, w.days, w.start);
    EndExactly(to, endDays, w.end);
  }

  lemma Unmade(expr: string, w: Window)
    requires WindowOf(expr) == Ok(w)
    ensures Describes(expr, w)
  {
    hide Sides, DayAndTimeOf, EndPartOf, IsSides, IsSide;
    var from, to := Sides(expr).value.0, Sides(expr).value.1;
    var start, end := DayAndTimeOf(from).value, EndPartOf(to).value;
    SidesExactly(expr, from, to);
    StartExactly(from, start.days, start.seconds);
    EndExactly(to, end.days, end.seconds);
    assert SidesMake(expr, from, to, end.days, w);
  }

  /** The parser reads an expression as a window exactly when the grammar says that it describes that window. */
  lemma WindowExactly(expr: string, w: Window)
    ensures WindowOf(expr) == Ok(w) <==> Describes(expr, w)
  {
    hide WindowOf, SidesMake;
    if WindowOf(expr) == Ok(w) {
      Unmade(expr, w);
    }
    if from, to, endDays :| SidesMake(expr, from, to, endDays, w) {
      Made(expr, from, to, endDays, w);
    }
  }

  // ----- Expressions of a list, and the moments they hold -----

  lemma TrimMore(before: string, text: string, after: string)
    requires Blank(before) && Blank(after)
    ensures Trim(before + text + after) == Trim(text)
  {
    var p, q := TrimDecomposes(text);
    TrimEnds(text);
    hide Trim;
    var core := Trim(text);
    assert before + text + after == (before + p) + core + (q + after);
    if core != "" {
      TrimPadded(before + p, core, q + after);
    } else {
      BlankTrims(text);
      BlankTrims(before + text + after);
    }
  }

  /** White space at either end leaves the sides of a text alone. */
  lemma SidesPadded(before: string, core: string, after: string, from: string, to: string)
    requires Blank(before) && Blank(after)
    ensures IsSides(before + core + after, from, to) <==> IsSides(core, from, to)
  {
    hide Blank, Trims;
    var expr := before + core + after;
    if a, b, rest :| PartedAt(core, a, b, rest, from, to) {
      PartedMore(before, a, b, rest, after, from, to);
      assert expr == ((before + a) + [':'] + b) + ['-'] + (rest + after);
      ColonStays(before, a);
      assert PartedAt(expr, before + a, b, rest + after, from, to);
    }
    if a, b, rest :| PartedAt(expr, a, b, rest, from, to) {
      var a', rest' := PartsWithin(before, core, after, a, b, rest);
      PartedMore(before, a', b, rest', after, from, to);
      assert PartedAt(core, a', b, rest', from, to);
    }
  }

  lemma ColonStays(before: string, a: string)
    requires Blank(before)
    ensures ':' in before + a <==> ':' in a
  {
  }

  lemma PartedMore(before: string, a: string, b: string, rest: string, after: string, from: string, to: string)
    requires Blank(before) && Blank(after)
    ensures Trims((before + a) + [':'] + b, from) <==> Trims(a + [':'] + b, from)
    ensures Trims(rest + after, to) <==> Trims(rest, to)
  {
    hide Trim, Trims;
    assert (before + a) + [':'] + b == before + (a + [':'] + b) + "";
    assert rest + after == "" + rest + after;
    TrimMore(before, a + [':'] + b, "");
    TrimMore("", rest, after);
    TrimsExactly((before + a) + [':'] + b, from);
    TrimsExactly(a + [':'] + b, from);
    TrimsExactly(rest + after, to);
    TrimsExactly(rest, to);
  }

  /** Neither separator is white space, so both lie between the white space at the ends. */
  lemma PartsWithin(before: string, core: string, after: string, a: string, b: string, rest: string)
    returns (a': string, rest': string)
    requires Blank(before) && Blank(after) && before + core + after == (a + [':'] + b) + ['-'] + rest
    requires ':' !in a
    ensures core == (a' + [':'] + b) + ['-'] + rest' && ':' !in a' && a == before + a' && rest == rest' + after
  {
    var expr := before + core + after;
    var colon, dash := |a|, |a| + 1 + |b|;
    assert expr[colon] == ':' && expr[dash] == '-';
    assert colon >= |before| by {
      assert forall i | 0 <= i < |before| :: IsSpace(expr[i]);
    }
    assert dash < |before| + |core| by {
      assert forall i | |before| + |core| <= i < |expr| :: IsSpace(expr[i]);
    }
    a', rest' := expr[|before|..colon], expr[dash + 1..|before| + |core|];
    assert a == expr[..colon] && rest == expr[dash + 1..] && before == expr[..|before|];
    assert after == expr[|before| + |core|..] && core == expr[|before|..|before| + |core|];
    assert b == expr[colon + 1..dash];
  }

  /** Of an expression in a list, with white space around it, the evaluator keeps the window that the grammar gives it. */
  lemma ExpressionExactly(expr: string, w: Window)
    ensures ExpressionOf(expr) == Ok(w) <==> Describes(expr, w)
  {
    hide WindowOf, Trim, IsSides, IsSide;
    var before, after := TrimDecomposes(expr);
    WindowExactly(Trim(expr), w);
    forall from, to
      ensures IsSides(expr, from, to) <==> IsSides(Trim(expr), from, to)
    {
      SidesPadded(before, Trim(expr), after, from, to);
    }
    NothingDescribed(w);
    SameDescribed(expr, Trim(expr), w);
  }

  lemma SameDescribed(x: string, y: string, w: Window)
    requires forall from, to :: IsSides(x, from, to) <==> IsSides(y, from, to)
    ensures Describes(x, w) <==> Describes(y, w)
  {
    hide IsSides, IsSide;
    if from, to, endDays :| SidesMake(x, from, to, endDays, w) {
      assert SidesMake(y, from, to, endDays, w);
    }
    if from, to, endDays :| SidesMake(y, from, to, endDays, w) {
      assert SidesMake(x, from, to, endDays, w);
    }
  }

  lemma NothingDescribed(w: Window)
    ensures !Describes("", w)
  {
    WindowExactly("", w);
  }

  /** An expression covers a week-second exactly when the grammar says it describes a window that holds it. */
  lemma CoversExactly(expr: string, t: int)
    ensures Covers(expr, t) <==> exists w: Window :: Describes(expr, w) && w.Valid() && w.Contains(t)
  {
    hide ExpressionOf, Describes, Window.Valid, Window.Contains;
    if Covers(expr, t) {
      var w := ExpressionOf(expr).value;
      ExpressionIsValid(expr);
      ExpressionExactly(expr, w);
      assert Describes(expr, w) && w.Valid() && w.Contains(t);
    }
    if w: Window :| Describes(expr, w) && w.Valid() && w.Contains(t) {
      ExpressionExactly(expr, w);
    }
  }

  lemma ExpressionIsValid(expr: string)
    ensures ExpressionOf(expr).Ok? ==> ExpressionOf(expr).value.Valid()
  {
    AcceptedIsValid(Trim(expr));
  }
}
