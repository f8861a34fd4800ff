/** How the days of the week are written, and that the parser reads each of them as the day it names, and nothing else. */
module DayNames {
  import opened Wrappers
  import opened Text
  import opened WindowLanguage
  import opened WindowSyntax

  const DAYS := ["sunday", "monday", "tuesday", "wednesday", "thursday", "friday", "saturday"]

  /** The accepted spellings of a day in small letters: its name, the first three letters of it, and four other short forms. */
  function Spellings(day: Weekday): set<string> {
    {DAYS[day], DAYS[day][..3]}
    + if day == 2 then {"tues"} else if day == 3 then {"weds"} else if day == 4 then {"thur", "thurs"} else {}
  }

  /** The character is this small letter or its capital; two characters outside ASCII also pass for the capitals of i and k. */
  predicate CaseOf(c: char, letter: char) {
    c == letter || c as int == letter as int - 32 || (letter == 'i' && c == '\U{130}') || (letter == 'k' && c == '\U{212A}')
  }

  /** The text is this word, each letter in either case. */
  predicate Spells(text: string, word: string) {
    |text| == |word| && forall i | 0 <= i < |word| :: CaseOf(text[i], word[i])
  }

  /** A day as it is written: in one of its spellings, each letter in either case. */
  datatype DayWord = DayWord(day: Weekday, text: string) {
    predicate Valid() {
      exists word | word in Spellings(day) :: Spells(text, word)
    }
  }

  lemma ShortForms()
    ensures DAYS[0][..3] == "sun" && DAYS[1][..3] == "mon" && DAYS[2][..3] == "tue" && DAYS[3][..3] == "wed"
    ensures DAYS[4][..3] == "thu" && DAYS[5][..3] == "fri" && DAYS[6][..3] == "sat"
  {
  }

  /** Whatever the spelling, a name begins with the first three letters of its day. */
  lemma SpellingsBegin(day: Weekday, word: string)
    requires word in Spellings(day)
    ensures |word| >= 3 && word[..3] == DAYS[day][..3]
  {
    ShortForms();
    assert "tues"[..3] == "tue" && "weds"[..3] == "wed" && "thur"[..3] == "thu" && "thurs"[..3] == "thu";
    assert DAYS[day][..3][..3] == DAYS[day][..3];
  }

  lemma NamedIsSpelling(word: string)
    requires NamedDay(word).Some?
    ensures word in Spellings(NamedDay(word).value)
  {
    ShortForms();
  }

  lemma SpellingIsSome(day: Weekday, word: string)
    requires word in Spellings(day)
    ensures NamedDay(word).Some?
  {
    ShortForms();
  }

  lemma SpellingIsNamed(day: Weekday, word: string)
    requires word in Spellings(day)
    ensures NamedDay(word) == Some(day)
  {
    hide NamedDay, Spellings;
    SpellingIsSome(day, word);
    NamedIsSpelling(word);
    SpellingsBegin(day, word);
    SpellingsBegin(NamedDay(word).value, word);
    DaysDiffer(day, NamedDay(word).value);
  }

  /** The first three letters tell the days apart. */
  lemma DaysDiffer(c: Weekday, d: Weekday)
    requires DAYS[c][..3] == DAYS[d][..3]
    ensures c == d
  {
    ShortForms();
    var x, y := DAYS[c][..3], DAYS[d][..3];
    assert x[0] == y[0] && x[1] == y[1];
  }

  // ----- Letter case -----

  predicate PlainLetters(s: string) {
    forall i | 0 <= i < |s| :: 'a' <= s[i] <= 'z'
  }

  lemma NamesArePlain(name: string)
    requires NamedDay(name).Some?
    ensures PlainLetters(name) && name != ""
  {
  }

  lemma SpelledInLower(text: string, word: string)
    requires PlainLetters(word)
    ensures Spells(text, word) <==> Lower(text) == word
  {
    forall c: char, letter: char | 'a' <= letter <= 'z'
      ensures CaseOf(c, letter) <==> LowerChar(c) == letter
    {
    }
  }

  lemma SpaceInLower(c: char)
    ensures IsSpace(LowerChar(c)) <==> IsSpace(c)
  {
  }

  // ----- White space around a name -----

  /** Trimming takes away white space at both ends and nothing else. */
  lemma TrimDecomposes(s: string) returns (before: string, after: string)
    ensures Blank(before) && Blank(after) && s == before + Trim(s) + after
  {
    var rest;
    before, rest := LeftDecomposes(s);
    after := RightDecomposes(rest);
  }

  lemma {:induction false} LeftDecomposes(s: string) returns (before: string, rest: string)
    ensures Blank(before) && s == before + rest && rest == TrimLeft(s)
  {
    if s != "" && IsSpace(s[0]) {
      before, rest := LeftDecomposes(s[1..]);
      before := [s[0]] + before;
    } else {
      before, rest := "", s;
    }
  }

  lemma {:induction false} RightDecomposes(s: string) returns (after: string)
    ensures Blank(after) && s == TrimRight(s) + after
  {
    if s != "" && IsSpace(s[|s| - 1]) {
      after := RightDecomposes(s[..|s| - 1]);
      after := after + [s[|s| - 1]];
    } else {
      after := "";
    }
  }

  lemma PlainIsSolid(s: string)
    requires PlainLetters(s) && s != ""
    ensures Solid(s)
  {
  }

  lemma SolidInLower(s: string)
    ensures Solid(Lower(s)) <==> Solid(s)
    ensures Blank(Lower(s)) <==> Blank(s)
  {
    forall c: char
      ensures IsSpace(LowerChar(c)) <==> IsSpace(c)
    {
      SpaceInLower(c);
    }
  }

  ghost predicate Surrounds(before: string, after: string, text: string, value: string) {
    Blank(before) && Blank(after) && value == before + text + after
  }

  /** A written day, with white space around it, is read as the day it names. */
  lemma WordIsRead(word: DayWord, before: string, after: string, value: string)
    requires word.Valid() && Surrounds(before, after, word.text, value)
    ensures DayName(value) == Some(word.day) && Solid(word.text)
  {
    var spelling :| spelling in Spellings(word.day) && Spells(word.text, spelling);
    hide Spellings, Spells, NamedDay, Lower, Trim;
    SpellingIsNamed(word.day, spelling);
    NamesArePlain(spelling);
    SpelledInLower(word.text, spelling);
    PlainIsSpelled(word.text, spelling);
    SolidInLower(before);
    SolidInLower(after);
    LowerConcat(before + word.text, after);
    LowerConcat(before, word.text);
    TrimPadded(Lower(before), spelling, Lower(after));
  }

  lemma PlainIsSpelled(text: string, spelling: string)
    requires PlainLetters(spelling) && spelling != "" && Lower(text) == spelling
    ensures Solid(text) && Solid(spelling)
  {
    PlainIsSolid(spelling);
    SolidInLower(text);
  }

  lemma LowerOfSlice(s: string, n: nat, m: nat)
    requires n <= m <= |s|
    ensures Lower(s[n..m]) == Lower(s)[n..m]
  {
    hide Lower, LowerChar;
    var a, b := Lower(s[n..m]), Lower(s)[n..m];
    forall i | 0 <= i < m - n
      ensures a[i] == b[i]
    {
      assert s[n..m][i] == s[n + i];
    }
  }

  /** A text in small letters is cut where its lower case is. */
  lemma LowerCut(value: string, left: string, middle: string, right: string) returns (a: string, b: string, c: string)
    requires Lower(value) == left + middle + right
    ensures value == a + b + c && Lower(a) == left && Lower(b) == middle && Lower(c) == right
  {
    hide Lower, LowerChar;
    var n, m := |left|, |left| + |middle|;
    a, b, c := value[..n], value[n..m], value[m..];
    CutInThree(value, n, m);
    CutInThree(Lower(value), n, m);
    CutBetween(left, middle, right);
    LowerOfSlice(value, 0, n);
    LowerOfSlice(value, n, m);
    LowerOfSlice(value, m, |value|);
  }

  lemma CutInThree(s: string, n: nat, m: nat)
    requires n <= m <= |s|
    ensures s == s[..n] + s[n..m] + s[m..] && s[0..n] == s[..n] && s[m..|s|] == s[m..]
  {
  }

  lemma CutBetween(left: string, middle: string, right: string)
    ensures var s := left + middle + right;
      s[..|left|] == left && s[|left|..|left| + |middle|] == middle && s[|left| + |middle|..] == right
  {
  }

  lemma NamedWord(spelling: string, text: string) returns (word: DayWord)
    requires NamedDay(spelling).Some? && Lower(text) == spelling
    ensures word.Valid() && word == DayWord(NamedDay(spelling).value, text)
  {
    word := DayWord(NamedDay(spelling).value, text);
    NamedIsSpelling(spelling);
    NamesArePlain(spelling);
    SpelledInLower(text, spelling);
    hide NamedDay, Spellings, Lower;
  }

  /** Whatever is read as a day is one of its spellings, with white space around it. */
  lemma ReadIsWord(value: string) returns (word: DayWord, before: string, after: string)
    requires DayName(value).Some?
    ensures word.Valid() && Surrounds(before, after, word.text, value) && DayName(value) == Some(word.day)
  {
    hide NamedDay, Trim, DayWord.Valid, Lower;
    var left, right := TrimDecomposes(Lower(value));
    var text;
    before, text, after := LowerCut(value, left, Trim(Lower(value)), right);
    word := NamedWord(Trim(Lower(value)), text);
    SolidInLower(before);
    SolidInLower(after);
  }

  /** A text is read as a day exactly when it is a spelling of that day in any letter case, white space around it aside. */
  lemma DayNameExactly(value: string, day: Weekday)
    ensures DayName(value) == Some(day)
       <==> exists before, text, after :: Surrounds(before, after, text, value) && DayWord(day, text).Valid()
  {
    hide DayName, Surrounds, DayWord.Valid;
    if DayName(value) == Some(day) {
      var word, before, after := ReadIsWord(value);
      assert word == DayWord(day, word.text);
    }
    if before, text, after :| Surrounds(before, after, text, value) && DayWord(day, text).Valid() {
      WordIsRead(DayWord(day, text), before, after, value);
    }
  }
}
