/**
 Windows as operators write them: day names in any accepted spelling and letter case, lists and ranges of days,
 two-digit times, and white space around every token. Reading such a text gives back the window that was written.
 */
module WindowText {
  import opened Wrappers
  import opened Text
  import opened WindowLanguage
  import opened WindowSyntax
  import opened DayNames

  /** A day name, as the parser takes it. */
  predicate IsName(name: string) {
    Solid(name) && DayName(name).Some?
  }

  /** A day or a range of days, without the white space around it. */
  datatype Core = Single(day: DayWord) | Range(first: DayWord, beforeDash: string, afterDash: string, last: DayWord) {
    predicate Valid() {
      match this
      case Single(day) => day.Valid()
      case Range(first, beforeDash, afterDash, last) => first.Valid() && last.Valid() && Blank(beforeDash) && Blank(afterDash)
    }

    /** The day, or the days met going forward around the week from the first to the last. */
    function Days(): seq<Weekday> {
      match this
      case Single(word) => [word.day]
      case Range(first, _, _, last) => DayRange(first.day, last.day)
    }

    function Write(): string {
      match this
      case Single(word) => word.text
      case Range(first, beforeDash, afterDash, last) => (first.text + beforeDash) + ['-'] + (afterDash + last.text)
    }
  }

  datatype DayItem = DayItem(before: string, core: Core, after: string) {
    predicate Valid() {
      core.Valid() && Blank(before) && Blank(after)
    }

    function Write(): string {
      before + core.Write() + after
    }
  }

  /** Days as they are written before a time: not at all, as `*`, or as a list; the white space around the list is not its own. */
  datatype WrittenDays = Unwritten | Star | Listed(items: seq<DayItem>) {
    ghost predicate Valid() {
      Listed? ==>
        && items != [] && (forall i | 0 <= i < |items| :: items[i].Valid())
        && items[0].before == "" && items[|items| - 1].after == ""
    }

    function Days(): seq<Weekday>
      requires Valid()
    {
      if Listed? then Distinct(ItemsDays(items)) else [0, 1, 2, 3, 4, 5, 6]
    }

    function Write(): string {
      match this
      case Unwritten => ""
      case Star => "*"
      case Listed(items) => Join(WriteItems(items), ",")
    }
  }

  function ItemsDays(items: seq<DayItem>): seq<Weekday>
    requires forall i | 0 <= i < |items| :: items[i].Valid()
  {
    if items == [] then []
    else
      assert items[|items| - 1].Valid();
      ItemsDays(items[..|items| - 1]) + items[|items| - 1].core.Days()
  }

  function WriteItems(items: seq<DayItem>): seq<string> {
    seq(|items|, i requires 0 <= i < |items| => items[i].Write())
  }

  datatype Clock = Clock(hour: nat, minute: nat) {
    predicate Valid() {
      hour < 24 && minute < 60
    }

    function Seconds(): nat {
      (hour * 60 + minute) * 60
    }

    function Write(): string
      requires Valid()
    {
      TwoDigits(hour) + [':'] + TwoDigits(minute)
    }
  }

  function TwoDigits(n: nat): string
    requires n < 100
  {
    [(48 + n / 10) as char, (48 + n % 10) as char]
  }

  /** Days, if any, and a time. */
  datatype Side = Side(days: WrittenDays, pad: string, clock: Clock) {
    ghost predicate Valid() {
      days.Valid() && clock.Valid() && Blank(pad) && pad != ""
    }

    function Write(): string
      requires clock.Valid()
    {
      if days.Unwritten? then clock.Write() else days.Write() + pad + clock.Write()
    }
  }

  datatype Written = Written(from: Side, to: Side, padStart: string, padDash: string, padEnd: string, padLast: string) {
    ghost predicate Valid() {
      from.Valid() && to.Valid() && Blank(padStart) && Blank(padDash) && Blank(padEnd) && Blank(padLast)
    }

    function Write(): string
      requires from.clock.Valid() && to.clock.Valid()
    {
      (padStart + from.Write() + padDash) + ['-'] + (padEnd + to.Write() + padLast)
    }
  }

  // ----- Day names -----

  lemma SolidTrims(s: string)
    requires Solid(s)
    ensures Trim(s) == s
  {
    TrimPadded("", s, "");
    assert "" + s + "" == s;
  }

  lemma LowerSolid(s: string)
    requires Solid(s)
    ensures Solid(Lower(s))
  {
    forall i | 0 <= i < |s|
      ensures !IsSpace(Lower(s)[i])
    {
      assert !IsSpace(s[i]);
    }
  }

  lemma LowerBlank(s: string)
    requires Blank(s)
    ensures Blank(Lower(s))
  {
  }

  lemma BlankHasNo(pad: string, c: char)
    requires Blank(pad) && !IsSpace(c)
    ensures c !in pad
  {
  }

  lemma PlainHasNone(s: string)
    requires PlainLetters(s)
    ensures ',' !in s && '-' !in s && ':' !in s && '*' !in s
  {
  }

  lemma WordIsName(word: DayWord)
    requires word.Valid()
    ensures IsName(word.text) && DayName(word.text) == Some(word.day)
  {
    assert Surrounds("", "", word.text, word.text);
    hide DayWord.Valid, DayName;
    WordIsRead(word, "", "", word.text);
  }

  /** A name has none of the characters that carry structure, and reads the same in lower case. */
  lemma NameIsPlain(name: string)
    requires IsName(name)
    ensures ',' !in name && '-' !in name && ':' !in name && '*' !in name
    ensures IsName(Lower(name)) && DayName(Lower(name)) == DayName(name)
  {
    LowerSolid(name);
    LowerIdempotent(name);
    hide NamedDay, Solid, Lower, PlainLetters;
    SolidTrims(Lower(name));
    NamesArePlain(Lower(name));
    PlainHasNone(Lower(name));
    LowerKeeps(name, ',');
    LowerKeeps(name, '-');
    LowerKeeps(name, ':');
    LowerKeeps(name, '*');
  }

  /** White space around a name does not matter. */
  lemma NamePadded(before: string, name: string, after: string)
    requires IsName(name) && Blank(before) && Blank(after)
    ensures DayName(before + name + after) == DayName(name)
  {
    LowerSolid(name);
    LowerBlank(before);
    LowerBlank(after);
    LowerConcat(before + name, after);
    LowerConcat(before, name);
    SolidTrims(Lower(name));
    hide NamedDay, Lower, Trim;
    TrimPadded(Lower(before), Lower(name), Lower(after));
  }

  // ----- Items -----

  predicate Visible(s: string) {
    s != "" && !IsSpace(s[0]) && !IsSpace(s[|s| - 1])
  }

  lemma EndsVisible(first: string, middle: string, last: string)
    requires Solid(first) && Solid(last)
    ensures Visible(first + middle + last) && Visible(first)
  {
    var s := first + middle + last;
    assert s[0] == first[0] && s[|s| - 1] == last[|last| - 1];
  }

  lemma CoreIsVisible(core: Core)
    requires core.Valid()
    ensures Visible(core.Write())
    ensures ',' !in core.Write() && ':' !in core.Write() && '*' !in core.Write()
  {
    hide DayWord.Valid, DayName;
    match core
    case Single(word) =>
      WordIsName(word);
      NameIsPlain(word.text);
    case Range(first, beforeDash, afterDash, last) =>
      WordIsName(first);
      WordIsName(last);
      NameIsPlain(first.text);
      NameIsPlain(last.text);
      RangeIsVisible(first.text, beforeDash, afterDash, last.text);
  }

  lemma RangeIsVisible(first: string, beforeDash: string, afterDash: string, last: string)
    requires Solid(first) && Solid(last) && Blank(beforeDash) && Blank(afterDash)
    ensures Visible((first + beforeDash) + ['-'] + (afterDash + last))
    ensures forall c | c in ",:*" && c !in first && c !in last :: c !in (first + beforeDash) + ['-'] + (afterDash + last)
  {
    var s := (first + beforeDash) + ['-'] + (afterDash + last);
    assert s == first + (beforeDash + ['-'] + afterDash) + last;
    EndsVisible(first, beforeDash + ['-'] + afterDash, last);
  }

  lemma LowerRange(a: string, b: string)
    ensures Lower(a + ['-'] + b) == Lower(a) + ['-'] + Lower(b)
  {
    LowerConcat(a + ['-'], b);
    LowerConcat(a, ['-']);
    assert Lower(['-']) == ['-'];
  }

  /** A part is read without the white space around it. */
  lemma PartPadded(before: string, part: string, after: string)
    requires Blank(before) && Blank(after) && Visible(part)
    ensures PartDays(before + part + after) == PartDays(part)
  {
    TrimPadded(before, part, after);
    VisibleTrims(part);
    SameTrimmed(before + part + after, part);
  }

  lemma SameTrimmed(a: string, b: string)
    requires Trim(a) == Trim(b)
    ensures PartDays(a) == PartDays(b)
  {
    hide Trim, DayName, DayRange, IndexOf;
  }

  lemma PartOfName(name: string)
    requires IsName(name) && '-' !in name
    ensures PartDays(name) == Ok([DayName(name).value])
  {
    SolidTrims(name);
    hide DayName, Trim, Solid;
  }

  lemma PartAtDash(left: string, right: string)
    requires Trim(left + ['-'] + right) == left + ['-'] + right && '-' !in left
    requires DayName(left).Some? && DayName(right).Some?
    ensures PartDays(left + ['-'] + right) == Ok(DayRange(DayName(left).value, DayName(right).value))
  {
    hide DayName, Trim, DayRange;
    var part := left + ['-'] + right;
    IndexOfAfter(left, '-', right);
    assert part[..|left|] == left && part[|left| + 1..] == right;
  }

  lemma PartOfRange(first: string, beforeDash: string, afterDash: string, last: string)
    requires IsName(first) && IsName(last) && '-' !in first && Blank(beforeDash) && Blank(afterDash)
    ensures PartDays((first + beforeDash) + ['-'] + (afterDash + last)) == Ok(DayRange(DayName(first).value, DayName(last).value))
  {
    hide DayName, Trim, DayRange, PartDays, Blank;
    var left, right := first + beforeDash, afterDash + last;
    RangeIsVisible(first, beforeDash, afterDash, last);
    VisibleTrims(left + ['-'] + right);
    BlankHasNo(beforeDash, '-');
    NothingIsBlank();
    NamePadded("", first, beforeDash);
    NamePadded(afterDash, last, "");
    assert "" + first + beforeDash == left && afterDash + last + "" == right;
    PartAtDash(left, right);
  }

  lemma NothingIsBlank()
    ensures Blank("")
  {
  }

  lemma VisibleTrims(s: string)
    requires Visible(s)
    ensures Trim(s) == s
  {
    TrimPadded("", s, "");
    assert "" + s + "" == s;
  }

  lemma ReadCore(core: Core)
    requires core.Valid()
    ensures PartDays(Lower(core.Write())) == Ok(core.Days()) && Visible(Lower(core.Write()))
  {
    hide DayName, PartDays, Solid, Visible, DayWord.Valid;
    match core
    case Single(word) =>
      WordIsName(word);
      ReadName(word.text);
    case Range(first, beforeDash, afterDash, last) =>
      WordIsName(first);
      WordIsName(last);
      ReadRange(first.text, beforeDash, afterDash, last.text);
  }

  lemma ReadName(name: string)
    requires IsName(name)
    ensures PartDays(Lower(name)) == Ok([DayName(name).value]) && Visible(Lower(name))
  {
    hide DayName, PartDays;
    NameIsPlain(name);
    NameIsPlain(Lower(name));
    PartOfName(Lower(name));
  }

  lemma ReadRange(first: string, beforeDash: string, afterDash: string, last: string)
    requires IsName(first) && IsName(last) && Blank(beforeDash) && Blank(afterDash)
    ensures var text := (first + beforeDash) + ['-'] + (afterDash + last);
      PartDays(Lower(text)) == Ok(DayRange(DayName(first).value, DayName(last).value)) && Visible(Lower(text))
  {
    hide DayName, PartDays, Solid, Visible, DayRange;
    NameIsPlain(first);
    NameIsPlain(last);
    NameIsPlain(Lower(first));
    LowerBlank(beforeDash);
    LowerBlank(afterDash);
    LowerRange(first + beforeDash, afterDash + last);
    LowerConcat(first, beforeDash);
    LowerConcat(afterDash, last);
    PartOfRange(Lower(first), Lower(beforeDash), Lower(afterDash), Lower(last));
    RangeIsVisible(Lower(first), Lower(beforeDash), Lower(afterDash), Lower(last));
  }

  /** A day or a range, in any spelling and with white space around each of its words, is read as its days. */
  lemma ReadItem(item: DayItem)
    requires item.Valid()
    ensures PartDays(Lower(item.Write())) == Ok(item.core.Days())
  {
    hide PartDays, Visible, Core.Write, Core.Days, Core.Valid;
    ReadCore(item.core);
    LowerConcat(item.before + item.core.Write(), item.after);
    LowerConcat(item.before, item.core.Write());
    LowerBlank(item.before);
    LowerBlank(item.after);
    PartPadded(Lower(item.before), Lower(item.core.Write()), Lower(item.after));
  }

  lemma ItemHasNone(item: DayItem)
    requires item.Valid()
    ensures ',' !in item.Write() && ':' !in item.Write() && '*' !in item.Write()
  {
    CoreIsVisible(item.core);
    hide Core.Write, Core.Valid;
    BlankHasNo(item.before, ',');
    BlankHasNo(item.before, ':');
    BlankHasNo(item.before, '*');
    BlankHasNo(item.after, ',');
    BlankHasNo(item.after, ':');
    BlankHasNo(item.after, '*');
  }

  // ----- Day lists -----

  function LowerAll(parts: seq<string>): seq<string> {
    seq(|parts|, i requires 0 <= i < |parts| => Lower(parts[i]))
  }

  lemma {:induction false} LowerJoined(parts: seq<string>)
    requires parts != []
    ensures Lower(Join(parts, ",")) == Join(LowerAll(parts), ",")
  {
    if |parts| > 1 {
      LowerJoined(parts[1..]);
      assert LowerAll(parts)[1..] == LowerAll(parts[1..]);
      LowerConcat(parts[0] + ",", Join(parts[1..], ","));
      LowerConcat(parts[0], ",");
      assert Lower(",") == ",";
    }
  }

  lemma {:induction false} ReadItems(items: seq<DayItem>)
    requires forall i | 0 <= i < |items| :: items[i].Valid()
    ensures PartsDays(LowerAll(WriteItems(items))) == Ok(ItemsDays(items))
  {
    hide PartDays, DayItem.Valid, DayItem.Write;
    if items != [] {
      var n := |items| - 1;
      ReadItems(items[..n]);
      assert LowerAll(WriteItems(items))[..n] == LowerAll(WriteItems(items[..n]));
      ReadItem(items[n]);
    }
  }

  lemma {:induction false} JoinedHasNone(parts: seq<string>, c: char)
    requires c != ',' && forall i | 0 <= i < |parts| :: c !in parts[i]
    ensures c !in Join(parts, ",")
  {
    if |parts| > 1 {
      JoinedHasNone(parts[1..], c);
    }
  }

  lemma {:induction false} JoinedEnds(parts: seq<string>)
    requires parts != [] && parts[0] != "" && parts[|parts| - 1] != ""
    ensures var s := Join(parts, ",");
      s != "" && s[0] == parts[0][0] && s[|s| - 1] == parts[|parts| - 1][|parts[|parts| - 1]| - 1]
  {
    if |parts| > 1 {
      JoinedTail(parts[1..]);
    }
  }

  lemma {:induction false} JoinedTail(parts: seq<string>)
    requires parts != [] && parts[|parts| - 1] != ""
    ensures var s := Join(parts, ",");
      s != "" && s[|s| - 1] == parts[|parts| - 1][|parts[|parts| - 1]| - 1]
  {
    if |parts| > 1 {
      JoinedTail(parts[1..]);
    }
  }

  lemma PaddedEdges(before: string, core: string, after: string)
    requires Visible(core)
    ensures var s := before + core + after;
      s != "" && (before == "" ==> s[0] == core[0]) && (after == "" ==> s[|s| - 1] == core[|core| - 1])
  {
    hide IsSpace;
  }

  lemma ItemEdges(item: DayItem)
    requires item.Valid()
    ensures item.Write() != ""
    ensures item.before == "" ==> !IsSpace(item.Write()[0])
    ensures item.after == "" ==> !IsSpace(item.Write()[|item.Write()| - 1])
  {
    CoreIsVisible(item.core);
    PaddedEdges(item.before, item.core.Write(), item.after);
    hide Core.Write, Core.Valid, IsSpace, Blank;
  }

  lemma ListIsVisible(items: seq<DayItem>)
    requires items != [] && items[0].Valid() && items[|items| - 1].Valid()
    requires items[0].before == "" && items[|items| - 1].after == ""
    ensures Visible(Join(WriteItems(items), ","))
  {
    hide DayItem.Write, DayItem.Valid, Join, IsSpace;
    ItemEdges(items[0]);
    ItemEdges(items[|items| - 1]);
    JoinedEnds(WriteItems(items));
  }

  lemma DaysAreVisible(days: WrittenDays)
    requires days.Valid() && !days.Unwritten?
    ensures Visible(days.Write()) && ':' !in days.Write() && (days.Listed? ==> '*' !in days.Write())
  {
    if days.Listed? {
      hide DayItem.Write, DayItem.Valid, Join, Visible;
      ItemsHaveNone(days.items);
      ListIsVisible(days.items);
    }
  }

  lemma ItemsHaveNone(items: seq<DayItem>)
    requires forall i | 0 <= i < |items| :: items[i].Valid()
    ensures ':' !in Join(WriteItems(items), ",") && '*' !in Join(WriteItems(items), ",")
  {
    hide DayItem.Write, DayItem.Valid, Join;
    var parts := WriteItems(items);
    forall i | 0 <= i < |items|
      ensures ':' !in parts[i] && '*' !in parts[i]
    {
      ItemHasNone(items[i]);
    }
    JoinedHasNone(parts, ':');
    JoinedHasNone(parts, '*');
  }

  lemma {:induction false} ItemsDaysNonEmpty(items: seq<DayItem>)
    requires items != [] && forall i | 0 <= i < |items| :: items[i].Valid()
    ensures ItemsDays(items) != []
  {
    assert items[|items| - 1].Valid();
  }

  /** Every list of days and ranges, and the star, is read as its days, each once. */
  lemma ReadDays(days: WrittenDays)
    requires days.Valid() && !days.Unwritten?
    ensures DaySpecOf(days.Write()) == Ok(days.Days())
  {
    var text := days.Write();
    DaysAreVisible(days);
    VisibleTrims(text);
    if days.Listed? {
      hide DayItem.Write, DayItem.Valid, Trim, Visible, PartDays;
      LowerKeeps(text, '*');
      var parts := WriteItems(days.items);
      LowerJoined(parts);
      forall i | 0 <= i < |parts|
        ensures ',' !in LowerAll(parts)[i]
      {
        ItemHasNone(days.items[i]);
        LowerKeeps(parts[i], ',');
      }
      SplitJoined(LowerAll(parts), ',');
      ReadItems(days.items);
      ItemsDaysNonEmpty(days.items);
      assert ItemsDays(days.items)[0] in Distinct(ItemsDays(days.items));
      assert Lower(text) != "*" by {
        assert '*' in "*";
      }
    } else {
      assert Lower("*") == "*";
    }
  }

  // ----- White space between words -----

  /** A word and the white space after it. */
  datatype Piece = Piece(word: string, pad: string)

  function Spell(pieces: seq<Piece>): string {
    if pieces == [] then "" else pieces[0].word + pieces[0].pad + Spell(pieces[1..])
  }

  /** White space as it is after splitting a text into fields and joining them again. */
  function Space(pad: string): string {
    if pad == "" then "" else " "
  }

  function Spaced(pieces: seq<Piece>): seq<Piece> {
    seq(|pieces|, i requires 0 <= i < |pieces| => Piece(pieces[i].word, Space(pieces[i].pad)))
  }

  predicate Proper(pieces: seq<Piece>) {
    && pieces != [] && pieces[|pieces| - 1].pad == ""
    && forall i | 0 <= i < |pieces| :: Solid(pieces[i].word) && Blank(pieces[i].pad)
  }

  lemma SolidConcat(a: string, b: string)
    requires Solid(a) && Solid(b)
    ensures Solid(a + b)
  {
  }

  lemma SpellPair(p: Piece, q: Piece, rest: seq<Piece>)
    requires p.pad == ""
    ensures Spell([p] + [q] + rest) == Spell([Piece(p.word + q.word, q.pad)] + rest)
  {
    hide Spell;
    var merged := Piece(p.word + q.word, q.pad);
    SpellConcat([p] + [q], rest);
    SpellConcat([p], [q]);
    SpellConcat([merged], rest);
    SpellOne(p);
    SpellOne(q);
    SpellOne(merged);
    assert (p.word + p.pad) + (q.word + q.pad) == merged.word + merged.pad;
  }

  lemma MergedProper(p: Piece, q: Piece, rest: seq<Piece>)
    requires Proper([p] + [q] + rest) && p.pad == ""
    ensures Proper([Piece(p.word + q.word, q.pad)] + rest)
  {
    var before, after := [p] + [q] + rest, [Piece(p.word + q.word, q.pad)] + rest;
    assert before[0] == p && before[1] == q;
    SolidConcat(p.word, q.word);
    hide Solid, Blank;
    assert forall i | 0 < i < |after| :: after[i] == before[i + 1];
    assert after[|after| - 1].pad == before[|before| - 1].pad;
  }

  /** Two words with nothing between them are one. */
  lemma MergedPieces(p: Piece, q: Piece, rest: seq<Piece>)
    requires Proper([p] + [q] + rest) && p.pad == ""
    ensures var pieces, merged := [p] + [q] + rest, [Piece(p.word + q.word, q.pad)] + rest;
      Proper(merged) && Spell(merged) == Spell(pieces) && Spell(Spaced(merged)) == Spell(Spaced(pieces))
  {
    hide Spell, Proper;
    MergedProper(p, q, rest);
    SpellPair(p, q, rest);
    var sp, sq := Piece(p.word, ""), Piece(q.word, Space(q.pad));
    SpellPair(sp, sq, Spaced(rest));
    assert Spaced([p] + [q] + rest) == [sp] + [sq] + Spaced(rest);
    assert Spaced([Piece(p.word + q.word, q.pad)] + rest) == [Piece(p.word + q.word, Space(q.pad))] + Spaced(rest);
  }

  /** The fields of a text, joined by single spaces, are the text with every white space made one space. */
  lemma {:induction false} FieldsRejoined(pieces: seq<Piece>)
    requires Proper(pieces)
    ensures Fields(Spell(pieces)) != [] && Join(Fields(Spell(pieces)), " ") == Spell(Spaced(pieces))
    decreases |pieces|
  {
    var first, rest := pieces[0], pieces[1..];
    if rest == [] {
      FieldsOfOne(first.word);
      assert Spell(pieces) == first.word && Spell(Spaced(pieces)) == first.word by {
        assert Spaced(pieces)[1..] == [];
      }
    } else if first.pad == "" {
      var second, others := pieces[1], pieces[2..];
      assert pieces == [first] + [second] + others;
      MergedPieces(first, second, others);
      FieldsRejoined([Piece(first.word + second.word, second.pad)] + others);
    } else {
      hide Solid, Blank, Fields;
      FieldsRejoined(rest);
      FieldsApart(first.word, first.pad, Spell(rest));
      FieldsOfOne(first.word);
      assert Spaced(pieces)[1..] == Spaced(rest);
      JoinedAfter(first.word, Fields(Spell(rest)));
    }
  }

  lemma JoinedAfter(word: string, words: seq<string>)
    requires words != []
    ensures Join([word] + words, " ") == word + " " + Join(words, " ")
  {
    assert ([word] + words)[1..] == words;
  }

  // ----- Days as words -----

  function CorePieces(core: Core, pad: string): seq<Piece> {
    match core
    case Single(word) => [Piece(word.text, pad)]
    case Range(first, beforeDash, afterDash, last) =>
      [Piece(first.text, beforeDash), Piece("-", afterDash), Piece(last.text, pad)]
  }

  /** The words of a list of items, but for the white space before the first. */
  function ItemPieces(items: seq<DayItem>): seq<Piece> {
    if items == [] then []
    else
      CorePieces(items[0].core, items[0].after)
      + if |items| == 1 then [] else [Piece(",", items[1].before)] + ItemPieces(items[1..])
  }

  function SpacedItem(item: DayItem): DayItem {
    DayItem(Space(item.before),
            match item.core
            case Single(word) => Single(word)
            case Range(first, beforeDash, afterDash, last) => Range(first, Space(beforeDash), Space(afterDash), last),
            Space(item.after))
  }

  function SpacedItems(items: seq<DayItem>): seq<DayItem> {
    seq(|items|, i requires 0 <= i < |items| => SpacedItem(items[i]))
  }

  lemma SpellConcat(a: seq<Piece>, b: seq<Piece>)
    ensures Spell(a + b) == Spell(a) + Spell(b)
  {
    if a == [] {
      assert a + b == b;
    } else {
      assert (a + b)[1..] == a[1..] + b;
      SpellConcat(a[1..], b);
    }
  }

  lemma SpellCore(core: Core, pad: string)
    ensures Spell(CorePieces(core, pad)) == core.Write() + pad
  {
    match core
    case Single(word) =>
      SpellOne(Piece(word.text, pad));
    case Range(first, beforeDash, afterDash, last) =>
      SpellOne(Piece(last.text, pad));
      var pieces := CorePieces(core, pad);
      assert pieces[1..] == [Piece("-", afterDash), Piece(last.text, pad)] && pieces[1..][1..] == [Piece(last.text, pad)];
  }

  lemma SpellOne(piece: Piece)
    ensures Spell([piece]) == piece.word + piece.pad
  {
  }

  lemma {:induction false} SpellItems(items: seq<DayItem>)
    requires items != []
    ensures items[0].before + Spell(ItemPieces(items)) == Join(WriteItems(items), ",")
  {
    hide CorePieces, Core.Write, Join, Spell;
    var head := CorePieces(items[0].core, items[0].after);
    SpellCore(items[0].core, items[0].after);
    if |items| == 1 {
      assert head + [] == head;
      JoinedOne(items[0].Write());
      assert WriteItems(items) == [items[0].Write()];
    } else {
      var comma, tail := Piece(",", items[1].before), ItemPieces(items[1..]);
      SpellItems(items[1..]);
      SpellConcat(head, [comma] + tail);
      SpellConcat([comma], tail);
      SpellOne(comma);
      assert WriteItems(items) == [items[0].Write()] + WriteItems(items[1..]);
      JoinedStep(items[0].Write(), WriteItems(items[1..]));
      ItemThenRest(items[0], comma, Spell(tail));
    }
  }

  lemma ItemThenRest(item: DayItem, comma: Piece, rest: string)
    requires comma.word == ","
    ensures item.before + ((item.core.Write() + item.after) + ((comma.word + comma.pad) + rest)) == item.Write() + "," + (comma.pad + rest)
  {
    hide Core.Write;
  }

  lemma JoinedOne(part: string)
    ensures Join([part], ",") == part
  {
  }

  lemma JoinedStep(part: string, parts: seq<string>)
    requires parts != []
    ensures Join([part] + parts, ",") == part + "," + Join(parts, ",")
  {
    assert ([part] + parts)[1..] == parts;
  }

  lemma SpacedConcat(a: seq<Piece>, b: seq<Piece>)
    ensures Spaced(a + b) == Spaced(a) + Spaced(b)
  {
  }

  lemma SpacedCore(item: DayItem)
    ensures Spaced(CorePieces(item.core, item.after)) == CorePieces(SpacedItem(item).core, SpacedItem(item).after)
  {
  }

  lemma {:induction false} SpacedPieces(items: seq<DayItem>)
    ensures Spaced(ItemPieces(items)) == ItemPieces(SpacedItems(items))
  {
    if items != [] {
      SpacedCore(items[0]);
      hide CorePieces, SpacedItem;
      var head := CorePieces(items[0].core, items[0].after);
      if |items| > 1 {
        SpacedPieces(items[1..]);
        SpacedConcat(head, [Piece(",", items[1].before)] + ItemPieces(items[1..]));
        SpacedConcat([Piece(",", items[1].before)], ItemPieces(items[1..]));
        SpacedComma(items[1]);
        assert SpacedItems(items)[1..] == SpacedItems(items[1..]);
      } else {
        assert head + [] == head && Spaced(head) + [] == Spaced(head);
      }
    }
  }

  lemma SpacedComma(item: DayItem)
    ensures Spaced([Piece(",", item.before)]) == [Piece(",", SpacedItem(item).before)]
  {
  }

  lemma CoreWordsSolid(core: Core)
    requires core.Valid()
    ensures core.Single? ==> Solid(core.day.text)
    ensures core.Range? ==> Solid(core.first.text) && Solid(core.last.text)
  {
    hide DayWord.Valid, DayName, Solid;
    match core
    case Single(word) =>
      WordIsName(word);
    case Range(first, _, _, last) =>
      WordIsName(first);
      WordIsName(last);
  }

  predicate Clean(pieces: seq<Piece>) {
    forall i | 0 <= i < |pieces| :: Solid(pieces[i].word) && Blank(pieces[i].pad)
  }

  lemma CorePiecesClean(core: Core, pad: string)
    requires core.Valid() && Blank(pad)
    ensures Clean(CorePieces(core, pad)) && CorePieces(core, pad) != []
    ensures CorePieces(core, pad)[|CorePieces(core, pad)| - 1].pad == pad
  {
    CoreWordsSolid(core);
    assert Solid("-");
    hide DayWord.Valid, Solid, Blank;
  }

  lemma CleanConcat(a: seq<Piece>, b: seq<Piece>)
    requires Clean(a) && Clean(b)
    ensures Clean(a + b)
  {
  }

  lemma CommaClean(pad: string)
    requires Blank(pad)
    ensures Clean([Piece(",", pad)])
  {
  }

  lemma {:induction false} ItemPiecesProper(items: seq<DayItem>)
    requires items != [] && (forall i | 0 <= i < |items| :: items[i].Valid()) && items[|items| - 1].after == ""
    ensures Proper(ItemPieces(items))
  {
    assert items[0].Valid();
    hide Core.Valid, CorePieces, Blank, Clean;
    var head := CorePieces(items[0].core, items[0].after);
    CorePiecesClean(items[0].core, items[0].after);
    if |items| > 1 {
      assert items[1].Valid();
      ItemPiecesProper(items[1..]);
      var tail := ItemPieces(items[1..]);
      ProperIsClean(tail);
      CommaClean(items[1].before);
      CleanConcat([Piece(",", items[1].before)], tail);
      CleanConcat(head, [Piece(",", items[1].before)] + tail);
      CleanIsProper(head + ([Piece(",", items[1].before)] + tail));
    } else {
      assert head + [] == head;
      CleanIsProper(head);
    }
  }

  lemma ProperIsClean(pieces: seq<Piece>)
    requires Proper(pieces)
    ensures Clean(pieces) && pieces != [] && pieces[|pieces| - 1].pad == ""
  {
  }

  lemma CleanIsProper(pieces: seq<Piece>)
    requires Clean(pieces) && pieces != [] && pieces[|pieces| - 1].pad == ""
    ensures Proper(pieces)
  {
  }

  function SpacedDays(days: WrittenDays): WrittenDays {
    if days.Listed? then Listed(SpacedItems(days.items)) else days
  }

  lemma SpacedItemValid(item: DayItem)
    requires item.Valid()
    ensures SpacedItem(item).Valid() && SpacedItem(item).core.Days() == item.core.Days()
  {
    hide DayWord.Valid, DayRange;
  }

  lemma {:induction false} SpacedItemsDays(items: seq<DayItem>)
    requires forall i | 0 <= i < |items| :: items[i].Valid()
    ensures forall i | 0 <= i < |items| :: SpacedItems(items)[i].Valid()
    ensures ItemsDays(SpacedItems(items)) == ItemsDays(items)
  {
    hide DayItem.Valid, Core.Days, SpacedItem;
    if items != [] {
      var n := |items| - 1;
      SpacedItemsDays(items[..n]);
      SpacedItemValid(items[n]);
      assert SpacedItems(items)[..n] == SpacedItems(items[..n]);
    }
  }

  lemma SpacedDaysSame(days: WrittenDays)
    requires days.Valid()
    ensures SpacedDays(days).Valid() && SpacedDays(days).Days() == days.Days()
  {
    if days.Listed? {
      SpacedItemsDays(days.items);
      hide DayItem.Valid, ItemsDays;
    }
  }

  lemma ListRejoined(items: seq<DayItem>)
    requires items != [] && Proper(ItemPieces(items)) && items[0].before == ""
    ensures var text := Join(WriteItems(items), ",");
      Fields(text) != [] && Join(Fields(text), " ") == Join(WriteItems(SpacedItems(items)), ",")
  {
    hide DayItem.Write, Fields, Spell, Spaced, ItemPieces, Proper, Join, WriteItems;
    FieldsRejoined(ItemPieces(items));
    SpacedPieces(items);
    SpellItems(items);
    SpellItems(SpacedItems(items));
    NoneBefore(items[0].before, Spell(ItemPieces(items)));
    NoneBefore(SpacedItems(items)[0].before, Spell(ItemPieces(SpacedItems(items))));
  }

  lemma NoneBefore(before: string, s: string)
    requires before == ""
    ensures before + s == s
  {
  }

  /** Splitting written days into fields and joining them again leaves written days, the same ones. */
  lemma DaysRejoined(days: WrittenDays)
    requires days.Valid() && !days.Unwritten?
    ensures Fields(days.Write()) != [] && Join(Fields(days.Write()), " ") == SpacedDays(days).Write()
  {
    hide DayItem.Valid, DayItem.Write, Fields, ItemPieces, Proper, SpacedItems, Join, WriteItems;
    if days.Listed? {
      ItemPiecesProper(days.items);
      ListRejoined(days.items);
    } else {
      StarRejoined();
    }
  }

  lemma StarRejoined()
    ensures Fields("*") == ["*"] && Join(["*"], " ") == "*"
  {
    FieldsOfOne("*");
  }

  // ----- Times -----

  lemma ReadTwoDigits(n: nat)
    requires n < 100
    ensures Solid(TwoDigits(n)) && ':' !in TwoDigits(n) && '-' !in TwoDigits(n)
    ensures Atoi(TwoDigits(n)) == Some(n)
  {
    var s := TwoDigits(n);
    assert AllDigits(s);
    assert s[..1] == [s[0]] && s[..1][..0] == [];
    assert DigitsValue(s[..1]) == n / 10;
    assert DigitsValue(s) == 10 * (n / 10) + n % 10;
  }

  lemma ClockIsPlain(clock: Clock)
    requires clock.Valid()
    ensures Solid(clock.Write()) && '-' !in clock.Write()
  {
    ReadTwoDigits(clock.hour);
    ReadTwoDigits(clock.minute);
  }

  /** Every two-digit time is read as its seconds. */
  lemma ReadClock(clock: Clock)
    requires clock.Valid()
    ensures TimeOfDay(clock.Write()) == Ok(clock.Seconds())
  {
    ReadTwoDigits(clock.hour);
    ReadTwoDigits(clock.minute);
    SplitFirst(TwoDigits(clock.hour), ':', TwoDigits(clock.minute));
    assert Split(TwoDigits(clock.minute), ':') == [TwoDigits(clock.minute)];
  }

  // ----- The two sides -----

  /** The fields of a side are those of its days, and its time. */
  lemma SideFields(side: Side)
    requires side.Valid()
    ensures var tokens := Fields(side.Write());
      && tokens != [] && tokens[|tokens| - 1] == side.clock.Write()
      && (side.days.Unwritten? <==> |tokens| == 1)
      && (!side.days.Unwritten? ==> Join(tokens[..|tokens| - 1], " ") == SpacedDays(side.days).Write())
  {
    ClockIsPlain(side.clock);
    FieldsOfOne(side.clock.Write());
    if !side.days.Unwritten? {
      hide Clock.Write, Fields, WrittenDays.Write, WrittenDays.Valid, SpacedDays;
      DaysRejoined(side.days);
      FieldsApart(side.days.Write(), side.pad, side.clock.Write());
      var days := Fields(side.days.Write());
      assert (days + [side.clock.Write()])[..|days|] == days;
    }
  }

  lemma ReadSpacedDays(days: WrittenDays)
    requires days.Valid() && !days.Unwritten?
    ensures DaySpecOf(SpacedDays(days).Write()) == Ok(days.Days())
  {
    hide WrittenDays.Valid, WrittenDays.Days, WrittenDays.Write, DaySpecOf;
    SpacedDaysSame(days);
    SpacedUnwritten(days);
    ReadDays(SpacedDays(days));
  }

  lemma SpacedUnwritten(days: WrittenDays)
    ensures SpacedDays(days).Unwritten? <==> days.Unwritten?
  {
  }

  /** The start of a window is read as its days, every day when none are written, and its time. */
  lemma ReadStart(side: Side)
    requires side.Valid()
    ensures DayAndTimeOf(side.Write()) == Ok(DayAndTime(side.days.Days(), side.clock.Seconds()))
  {
    hide Fields, TimeOfDay, DaySpecOf, Clock.Write, Clock.Seconds, Join, SpacedDays, Side.Write, Blank, WrittenDays.Write;
    SideFields(side);
    ReadClock(side.clock);
    if side.days.Unwritten? {
      ReadDays(Star);
      StarText();
    } else {
      hide WrittenDays.Days, WrittenDays.Valid;
      ReadSpacedDays(side.days);
    }
  }

  lemma StarText()
    ensures Star.Write() == "*"
  {
  }

  /** The end of a window is read as its time, and its days if any are written. */
  lemma ReadEnd(side: Side)
    requires side.Valid()
    ensures EndPartOf(side.Write())
         == Ok(EndPart(if side.days.Unwritten? then None else Some(side.days.Days()), side.clock.Seconds()))
  {
    hide Fields, TimeOfDay, DaySpecOf, Clock.Write, Clock.Seconds, Join, SpacedDays, Side.Write, Blank, WrittenDays.Write;
    hide WrittenDays.Days, WrittenDays.Valid;
    SideFields(side);
    ReadClock(side.clock);
    if !side.days.Unwritten? {
      ReadSpacedDays(side.days);
    }
  }

  // ----- The separator -----

  /** The first dash after the first colon of `before : between - after` is the one shown. */
  lemma SeparatorPlace(before: string, between: string, after: string, text: string)
    requires ':' !in before && '-' !in between
    requires text == (before + [':'] + between) + ['-'] + after
    ensures IndexOf(text, ':') == |before|
    ensures IndexOf(text[|before|..], '-') == 1 + |between|
    ensures text[..|before| + 1 + |between|] == before + [':'] + between
    ensures text[|before| + 1 + |between| + 1..] == after
  {
    hide IndexOf;
    var rest := between + ['-'] + after;
    assert text == before + [':'] + rest;
    IndexOfAfter(before, ':', rest);
    assert text[|before|..] == ([':'] + between) + ['-'] + after;
    IndexOfAfter([':'] + between, '-', after);
  }

  lemma SidesAround(before: string, between: string, after: string, text: string)
    requires ':' !in before && '-' !in between
    requires text == (before + [':'] + between) + ['-'] + after
    requires Trim(before + [':'] + between) != "" && Trim(after) != ""
    ensures Sides(text) == Ok((Trim(before + [':'] + between), Trim(after)))
  {
    hide IndexOf, Trim;
    SeparatorPlace(before, between, after, text);
  }

  /** What a written start has before its first colon. */
  function BeforeColon(w: Written): string
    requires w.from.clock.Valid()
  {
    w.padStart + (if w.from.days.Unwritten? then "" else w.from.days.Write() + w.from.pad) + TwoDigits(w.from.clock.hour)
  }

  lemma StartAroundColon(w: Written)
    requires w.Valid()
    ensures w.padStart + w.from.Write() + w.padDash == BeforeColon(w) + [':'] + (TwoDigits(w.from.clock.minute) + w.padDash)
    ensures ':' !in BeforeColon(w) && '-' !in TwoDigits(w.from.clock.minute) + w.padDash
  {
    hide TwoDigits, WrittenDays.Write, WrittenDays.Valid, Blank;
    ReadTwoDigits(w.from.clock.hour);
    ReadTwoDigits(w.from.clock.minute);
    BlankHasNo(w.padStart, ':');
    BlankHasNo(w.from.pad, ':');
    BlankHasNo(w.padDash, '-');
    if !w.from.days.Unwritten? {
      DaysAreVisible(w.from.days);
    }
  }

  lemma SideIsVisible(side: Side)
    requires side.Valid()
    ensures Visible(side.Write())
  {
    ClockIsPlain(side.clock);
    if !side.days.Unwritten? {
      DaysAreVisible(side.days);
      hide WrittenDays.Write, WrittenDays.Valid, Clock.Write, IsSpace;
      var s := side.Write();
      assert s[0] == side.days.Write()[0] && s[|s| - 1] == side.clock.Write()[|side.clock.Write()| - 1];
    }
  }

  /** The separator of a written window is the dash between its two times, whatever dashes its day ranges have. */
  lemma SidesOfWritten(w: Written)
    requires w.Valid()
    ensures Sides(w.Write()) == Ok((w.from.Write(), w.to.Write()))
  {
    var before, between := BeforeColon(w), TwoDigits(w.from.clock.minute) + w.padDash;
    var after := w.padEnd + w.to.Write() + w.padLast;
    hide IndexOf, Trim, Sides, BeforeColon, TwoDigits, Side.Write;
    StartAroundColon(w);
    SideIsVisible(w.from);
    SideIsVisible(w.to);
    TrimPadded(w.padStart, w.from.Write(), w.padDash);
    TrimPadded(w.padEnd, w.to.Write(), w.padLast);
    SidesAround(before, between, after, w.Write());
  }

  /**
   Reading a written window gives its start days without repetitions, its times, and its end day; only an end day that is not
   one day, or that goes with other than one start day, is refused.
   */
  lemma ReadWritten(w: Written)
    requires w.Valid()
    ensures WindowOf(w.Write())
         == if w.to.days.Unwritten? then Ok(Window(w.from.days.Days(), w.from.clock.Seconds(), None, w.to.clock.Seconds()))
            else if |w.from.days.Days()| != 1 then Err(EndDayWithSeveralStarts)
            else if |w.to.days.Days()| != 1 then Err(SeveralEndDays)
            else Ok(Window(w.from.days.Days(), w.from.clock.Seconds(), Some(w.to.days.Days()[0]), w.to.clock.Seconds()))
  {
    hide Sides, DayAndTimeOf, EndPartOf, WrittenDays.Days, WrittenDays.Valid, Side.Write;
    SidesOfWritten(w);
    ReadStart(w.from);
    ReadEnd(w.to);
  }
}
