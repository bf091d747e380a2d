/**
 Every way of writing breakpoint options, and that parsing gives back what was written.
 */
module OptionText {
  import opened Wrappers
  import opened Decimals
  import opened OptionParser

  datatype Word = Temporary(long: bool) | Hardware(long: bool) | Ignore(space: string, digits: string)

  /** A word and the white space after it, if anything follows. */
  datatype Item = Item(word: Word, gap: string)

  datatype Tail = NoCondition | LongForm(gap: string, text: string) | ShortForm(gap: string, text: string)
                | IfForm(gap: string, text: string)

  ghost predicate Gap(s: string)
  {
    s != "" && AllSpace(s)
  }

  ghost predicate WellWritten(items: seq<Item>, tail: Tail)
  {
    && (forall i :: 0 <= i < |items| ==> WellSpelled(items[i]))
    && (!tail.NoCondition? ==> Gap(tail.gap) && tail.text != "" && Trimmed(tail.text))
  }

  ghost predicate WellSpelled(item: Item)
  {
    Gap(item.gap) && (item.word.Ignore? ==> Gap(item.word.space) && item.word.digits != "" && AllDigits(item.word.digits))
  }

  function Spell(w: Word): (s: string)
    ensures s != ""
  {
    match w
    case Temporary(long) => if long then TEMPORARY else T
    case Hardware(long) => if long then HARDWARE else H
    case Ignore(space, digits) => IGNORE + space + digits
  }

  function TailText(tail: Tail): (s: string)
  {
    match tail
    case NoCondition => ""
    case LongForm(gap, text) => CONDITION + (gap + text)
    case ShortForm(gap, text) => C + (gap + text)
    case IfForm(gap, text) => IF + (gap + text)
  }

  function Suffix(gap: string, rest: string): (s: string)
  {
    if rest == "" then "" else gap + rest
  }

  function Render(items: seq<Item>, tail: Tail): (s: string)
  {
    if items == [] then TailText(tail)
    else Spell(items[0].word) + Suffix(items[0].gap, Render(items[1..], tail))
  }

  // What the words mean

  function Meaning(items: seq<Item>, tail: Tail, o: Options): (r: Result<Options, Error>)
    requires forall i :: 0 <= i < |items| && items[i].word.Ignore? ==> AllDigits(items[i].word.digits)
  {
    if items == [] then Ok(if tail.NoCondition? then o else o.(condition := Some(tail.text)))
    else match items[0].word
      case Temporary(_) => Meaning(items[1..], tail, o.(temporary := true))
      case Hardware(_) => Meaning(items[1..], tail, o.(hardware := true))
      case Ignore(_, digits) =>
        if o.ignoreCount.Some? then Err(CountTwice)
        else if ValueOf(digits) > MAX_COUNT then Err(CountTooLarge)
        else Meaning(items[1..], tail, o.(ignoreCount := Some(ValueOf(digits))))
  }

  // One word at a time

  lemma Differs(s: string, word: string, i: nat)
    requires i < |word| && i < |s| && s[i] != word[i]
    ensures !Starts(s, word)
  {
    assert |word| <= |s| ==> s[..|word|][i] == s[i];
  }

  lemma NotTemporary(s: string)
    requires |s| > 2 && (s[1] != '-' || s[2] != 't') && s[1] != 't'
    ensures StripEither(s, TEMPORARY, T).None?
  {
    Differs(s, TEMPORARY, if s[1] != '-' then 1 else 2);
    Differs(s, T, 1);
  }

  lemma NotHardware(s: string)
    requires |s| > 2 && (s[1] != '-' || s[2] != 'h') && s[1] != 'h'
    ensures StripEither(s, HARDWARE, H).None?
  {
    Differs(s, HARDWARE, if s[1] != '-' then 1 else 2);
    Differs(s, H, 1);
  }

  lemma NotIgnore(s: string)
    requires |s| > 2 && (s[1] != '-' || s[2] != 'i')
    ensures StripWord(s, IGNORE).None?
  {
    Differs(s, IGNORE, if s[1] != '-' then 1 else 2);
  }

  lemma ReadTemporary(long: bool, rest: string)
    requires Boundary(rest)
    ensures StripEither((if long then TEMPORARY else T) + rest, TEMPORARY, T) == Some(rest)
  {
    if long {
    } else {
      Differs(T + rest, TEMPORARY, 1);
    }
  }

  lemma ReadHardware(long: bool, rest: string)
    requires Boundary(rest)
    ensures var s := (if long then HARDWARE else H) + rest;
            StripEither(s, TEMPORARY, T).None? && StripEither(s, HARDWARE, H) == Some(rest)
  {
    var s := (if long then HARDWARE else H) + rest;
    if long {
      assert s[1] == '-' && s[2] == 'h';
      Differs(s, TEMPORARY, 2);
    } else {
      assert s[1] == 'h';
      Differs(s, TEMPORARY, 1);
      Differs(s, HARDWARE, 1);
    }
    Differs(s, T, 1);
  }

  lemma ReadIgnore(rest: string)
    requires Boundary(rest)
    ensures var s := IGNORE + rest;
            && StripEither(s, TEMPORARY, T).None? && StripEither(s, HARDWARE, H).None?
            && StripWord(s, IGNORE) == Some(rest)
  {
    var s := IGNORE + rest;
    assert s[1] == '-' && s[2] == 'i';
    NotTemporary(s);
    NotHardware(s);
  }

  lemma ReadCount(space: string, digits: string, gap: string, rest: string, o: Options)
    requires Gap(space) && digits != "" && AllDigits(digits) && Gap(gap) && (rest == "" || !IsSpace(rest[0]))
    ensures Count(space + digits + Suffix(gap, rest), o) ==
            if o.ignoreCount.Some? then Err(CountTwice)
            else if ValueOf(digits) > MAX_COUNT then Err(CountTooLarge)
            else Ok((rest, o.(ignoreCount := Some(ValueOf(digits)))))
  {
    var after := Suffix(gap, rest);
    var text := digits + after;
    assert space + digits + after == space + text;
    assert !IsSpace(text[0]) by {
      assert IsDigit(digits[0]) && text[0] == digits[0];
    }
    TrimStartGap(space, text);
    assert FirstSpace(text) == |digits| by {
      assert forall i :: 0 <= i < |digits| ==> text[i] == digits[i] && IsDigit(digits[i]);
      assert after != "" ==> text[|digits|] == gap[0];
    }
    assert text[..|digits|] == digits && text[|digits|..] == after;
    SuffixTrims(gap, rest);
  }

  lemma SuffixTrims(gap: string, rest: string)
    requires Gap(gap) && (rest == "" || !IsSpace(rest[0]))
    ensures Boundary(Suffix(gap, rest)) && TrimStart(Suffix(gap, rest)) == rest
  {
    if rest != "" {
      TrimStartGap(gap, rest);
      assert (gap + rest)[0] == gap[0];
    }
  }

  // The condition

  lemma TailRead(tail: Tail, o: Options)
    requires WellWritten([], tail)
    ensures ParseFrom(TailText(tail), o) == Meaning([], tail, o)
  {
    if !tail.NoCondition? {
      var s, rest := TailText(tail), tail.gap + tail.text;
      assert rest[0] == tail.gap[0] && |rest| >= 2;
      assert tail.LongForm? ==> s[1] == '-' && s[2] == 'c';
      assert tail.ShortForm? ==> s[1] == 'c';
      assert tail.IfForm? ==> s[0] == 'i' && s[1] == 'f';
      NotTemporary(s);
      NotHardware(s);
      NotIgnore(s);
      ConditionRead(tail);
      TrimAround(tail.gap, tail.text, "");
      assert tail.gap + tail.text + "" == rest;
    } else {
      assert TrimStart("") == "";
    }
  }

  lemma ConditionRead(tail: Tail)
    requires !tail.NoCondition? && WellWritten([], tail)
    ensures var s, rest := TailText(tail), tail.gap + tail.text;
            (if Starts(s, CONDITION) then StripWord(s, CONDITION) else StripEither(s, C, IF)) == Some(rest)
  {
    var s, rest := TailText(tail), tail.gap + tail.text;
    assert rest[0] == tail.gap[0];
    match tail
    case LongForm(_, _) =>
    case ShortForm(_, _) =>
      Differs(s, CONDITION, 1);
    case IfForm(_, _) =>
      Differs(s, CONDITION, 0);
      Differs(s, C, 0);
  }

  // Whole texts

  lemma {:induction false} RenderTrimmed(items: seq<Item>, tail: Tail)
    requires WellWritten(items, tail)
    ensures Trimmed(Render(items, tail))
  {
    if items == [] {
      if !tail.NoCondition? {
        var s := TailText(tail);
        assert s[|s| - 1] == tail.text[|tail.text| - 1];
      }
    } else {
      RenderTrimmed(items[1..], tail);
      SpellTrimmed(items[0]);
      JoinTrimmed(Spell(items[0].word), items[0].gap, Render(items[1..], tail));
    }
  }

  lemma JoinTrimmed(a: string, gap: string, rest: string)
    requires a != "" && Trimmed(a) && Trimmed(rest)
    ensures Trimmed(a + Suffix(gap, rest))
  {
    var s := a + Suffix(gap, rest);
    assert s[0] == a[0];
    assert rest == "" ==> s == a;
    assert rest != "" ==> s[|s| - 1] == rest[|rest| - 1];
  }

  lemma SpellTrimmed(item: Item)
    requires WellSpelled(item)
    ensures Trimmed(Spell(item.word))
  {
    if item.word.Ignore? {
      var s, d := Spell(item.word), item.word.digits;
      assert s[|s| - 1] == d[|d| - 1] && IsDigit(d[|d| - 1]);
    }
  }

  lemma FirstTemporary(long: bool, gap: string, rest: string, o: Options)
    requires Gap(gap) && (rest == "" || !IsSpace(rest[0]))
    ensures ParseFrom((if long then TEMPORARY else T) + Suffix(gap, rest), o) == ParseFrom(rest, o.(temporary := true))
  {
    SuffixTrims(gap, rest);
    ReadTemporary(long, Suffix(gap, rest));
  }

  lemma FirstHardware(long: bool, gap: string, rest: string, o: Options)
    requires Gap(gap) && (rest == "" || !IsSpace(rest[0]))
    ensures ParseFrom((if long then HARDWARE else H) + Suffix(gap, rest), o) == ParseFrom(rest, o.(hardware := true))
  {
    SuffixTrims(gap, rest);
    ReadHardware(long, Suffix(gap, rest));
  }

  lemma FirstIgnore(space: string, digits: string, gap: string, rest: string, o: Options)
    requires Gap(space) && digits != "" && AllDigits(digits) && Gap(gap) && (rest == "" || !IsSpace(rest[0]))
    ensures ParseFrom(IGNORE + space + digits + Suffix(gap, rest), o) ==
            if o.ignoreCount.Some? then Err(CountTwice)
            else if ValueOf(digits) > MAX_COUNT then Err(CountTooLarge)
            else ParseFrom(rest, o.(ignoreCount := Some(ValueOf(digits))))
  {
    var after := space + digits + Suffix(gap, rest);
    assert after[0] == space[0];
    assert IGNORE + space + digits + Suffix(gap, rest) == IGNORE + after;
    ReadIgnore(after);
    ReadCount(space, digits, gap, rest, o);
  }

  lemma {:induction false} ReadAll(items: seq<Item>, tail: Tail, o: Options)
    requires WellWritten(items, tail)
    ensures ParseFrom(Render(items, tail), o) == Meaning(items, tail, o)
    decreases |items|
  {
    if items == [] {
      TailRead(tail, o);
    } else {
      var rest, gap := Render(items[1..], tail), items[0].gap;
      RestWellWritten(items, tail);
      RenderTrimmed(items[1..], tail);
      match items[0].word
      case Temporary(long) =>
        FirstTemporary(long, gap, rest, o);
        ReadAll(items[1..], tail, o.(temporary := true));
      case Hardware(long) =>
        FirstHardware(long, gap, rest, o);
        ReadAll(items[1..], tail, o.(hardware := true));
      case Ignore(space, digits) =>
        FirstIgnore(space, digits, gap, rest, o);
        ReadAll(items[1..], tail, o.(ignoreCount := Some(ValueOf(digits))));
    }
  }

  lemma RestWellWritten(items: seq<Item>, tail: Tail)
    requires items != [] && WellWritten(items, tail)
    ensures WellSpelled(items[0]) && WellWritten(items[1..], tail)
  {
    assert forall i :: 0 <= i < |items| - 1 ==> items[1..][i] == items[i + 1];
  }

  /** Whatever the words, their spelling, their order and the white space, parsing reads their meaning. */
  lemma ParseReadsMeaning(lead: string, items: seq<Item>, tail: Tail, trail: string)
    requires AllSpace(lead) && AllSpace(trail) && WellWritten(items, tail)
    ensures Parse(lead + Render(items, tail) + trail) == Meaning(items, tail, DEFAULT)
  {
    RenderTrimmed(items, tail);
    TrimAround(lead, Render(items, tail), trail);
    ReadAll(items, tail, DEFAULT);
  }

  // What a list of words comes to

  ghost predicate AnyTemporary(items: seq<Item>)
  {
    exists i :: 0 <= i < |items| && items[i].word.Temporary?
  }

  ghost predicate AnyHardware(items: seq<Item>)
  {
    exists i :: 0 <= i < |items| && items[i].word.Hardware?
  }

  /** The counts given, in order. */
  ghost function Counts(items: seq<Item>): (r: seq<nat>)
    requires forall i :: 0 <= i < |items| && items[i].word.Ignore? ==> AllDigits(items[i].word.digits)
  {
    if items == [] then []
    else (if items[0].word.Ignore? then [ValueOf(items[0].word.digits)] else []) + Counts(items[1..])
  }

  ghost function Condition(tail: Tail): (c: Option<string>)
  {
    if tail.NoCondition? then None else Some(tail.text)
  }

  lemma AnySplits(items: seq<Item>)
    requires items != []
    ensures AnyTemporary(items) <==> items[0].word.Temporary? || AnyTemporary(items[1..])
    ensures AnyHardware(items) <==> items[0].word.Hardware? || AnyHardware(items[1..])
  {
    assert forall i :: 0 < i < |items| ==> items[i] == items[1..][i - 1];
    assert forall i :: 0 <= i < |items| - 1 ==> items[1..][i] == items[i + 1];
  }

  /** The options so far and the words still to come. */
  ghost function Total(items: seq<Item>, tail: Tail, o: Options): (r: Options)
    requires forall i :: 0 <= i < |items| && items[i].word.Ignore? ==> AllDigits(items[i].word.digits)
  {
    Options(o.temporary || AnyTemporary(items), o.hardware || AnyHardware(items),
            if o.ignoreCount.Some? then o.ignoreCount else if Counts(items) == [] then None else Some(Counts(items)[0]),
            if tail.NoCondition? then o.condition else Some(tail.text))
  }

  ghost predicate Readable(items: seq<Item>, o: Options)
    requires forall i :: 0 <= i < |items| && items[i].word.Ignore? ==> AllDigits(items[i].word.digits)
  {
    |Counts(items)| <= (if o.ignoreCount.Some? then 0 else 1) && forall n :: n in Counts(items) ==> n <= MAX_COUNT
  }

  /** Words are read iff at most one count is given and it is in range, and then their order does not matter. */
  lemma {:induction false} MeaningIff(items: seq<Item>, tail: Tail, o: Options)
    requires WellWritten(items, tail)
    ensures Meaning(items, tail, o).Ok? <==> Readable(items, o)
    ensures Readable(items, o) ==> Meaning(items, tail, o) == Ok(Total(items, tail, o))
    decreases |items|
  {
    if items != [] {
      RestWellWritten(items, tail);
      AnySplits(items);
      assert !items[0].word.Ignore? ==> Counts(items) == Counts(items[1..]);
      match items[0].word
      case Temporary(_) => MeaningIff(items[1..], tail, o.(temporary := true));
      case Hardware(_) => MeaningIff(items[1..], tail, o.(hardware := true));
      case Ignore(_, digits) =>
        assert Counts(items)[0] == ValueOf(digits) && ValueOf(digits) in Counts(items);
        MeaningIff(items[1..], tail, o.(ignoreCount := Some(ValueOf(digits))));
    }
  }

  /** The words say just what an options record holds. */
  ghost predicate Writes(items: seq<Item>, tail: Tail, o: Options)
    requires WellWritten(items, tail)
  {
    && (AnyTemporary(items) <==> o.temporary)
    && (AnyHardware(items) <==> o.hardware)
    && Counts(items) == (if o.ignoreCount.Some? then [o.ignoreCount.value] else [])
    && Condition(tail) == o.condition
  }

  lemma MeaningWritten(items: seq<Item>, tail: Tail, o: Options)
    requires WellWritten(items, tail) && Writes(items, tail, o)
    ensures Meaning(items, tail, DEFAULT) ==
            if o.ignoreCount.Some? && o.ignoreCount.value > MAX_COUNT then Err(CountTooLarge) else Ok(o)
  {
    if o.ignoreCount.Some? && o.ignoreCount.value > MAX_COUNT {
      TooLarge(items, tail, DEFAULT);
    } else {
      MeaningIff(items, tail, DEFAULT);
      assert Readable(items, DEFAULT);
      assert Total(items, tail, DEFAULT) == o;
    }
  }

  /** Any writing of an options record with a count in range parses to that record. */
  lemma OptionsRoundTrip(lead: string, items: seq<Item>, tail: Tail, trail: string, o: Options)
    requires AllSpace(lead) && AllSpace(trail) && WellWritten(items, tail) && Writes(items, tail, o)
    ensures Parse(lead + Render(items, tail) + trail) ==
            if o.ignoreCount.Some? && o.ignoreCount.value > MAX_COUNT then Err(CountTooLarge) else Ok(o)
  {
    ParseReadsMeaning(lead, items, tail, trail);
    MeaningWritten(items, tail, o);
  }

  lemma {:induction false} TooLarge(items: seq<Item>, tail: Tail, o: Options)
    requires WellWritten(items, tail) && o.ignoreCount.None?
    requires |Counts(items)| == 1 && Counts(items)[0] > MAX_COUNT
    ensures Meaning(items, tail, o) == Err(CountTooLarge)
    decreases |items|
  {
    RestWellWritten(items, tail);
    match items[0].word
    case Temporary(_) => TooLarge(items[1..], tail, o.(temporary := true));
    case Hardware(_) => TooLarge(items[1..], tail, o.(hardware := true));
    case Ignore(_, _) =>
  }

  /** Every record with a trimmed condition has such a writing. */
  lemma WritingExists(o: Options) returns (items: seq<Item>, tail: Tail)
    requires o.condition.Some? ==> o.condition.value != "" && Trimmed(o.condition.value)
    ensures WellWritten(items, tail) && Writes(items, tail, o)
  {
    var count := if o.ignoreCount.Some? then Decimal(o.ignoreCount.value) else "0";
    items := (if o.ignoreCount.Some? then [Item(Ignore(" ", count), " ")] else []);
    if o.hardware {
      Prepend(Item(Hardware(true), " "), items);
      items := [Item(Hardware(true), " ")] + items;
    }
    if o.temporary {
      Prepend(Item(Temporary(true), " "), items);
      items := [Item(Temporary(true), " ")] + items;
    }
    tail := if o.condition.Some? then LongForm(" ", o.condition.value) else NoCondition;
  }

  lemma Prepend(item: Item, items: seq<Item>)
    requires !item.word.Ignore?
    requires forall i :: 0 <= i < |items| && items[i].word.Ignore? ==> AllDigits(items[i].word.digits)
    ensures Counts([item] + items) == Counts(items)
    ensures AnyTemporary([item] + items) <==> item.word.Temporary? || AnyTemporary(items)
    ensures AnyHardware([item] + items) <==> item.word.Hardware? || AnyHardware(items)
  {
    assert ([item] + items)[1..] == items;
    AnySplits([item] + items);
  }

  // A condition written without a word

  ghost predicate StartsWithWord(s: string)
  {
    || StripEither(s, TEMPORARY, T).Some? || StripEither(s, HARDWARE, H).Some? || StripWord(s, IGNORE).Some?
    || StripWord(s, CONDITION).Some? || StripEither(s, C, IF).Some?
  }

  /** Options already read stay. */
  lemma {:induction false} ParseKeeps(s: string, o: Options)
    ensures var r := ParseFrom(s, o);
            r.Ok? ==> && (o.temporary ==> r.value.temporary) && (o.hardware ==> r.value.hardware)
                      && (o.ignoreCount.Some? ==> r.value.ignoreCount == o.ignoreCount)
    decreases |s|
  {
    var t, h, i := StripEither(s, TEMPORARY, T), StripEither(s, HARDWARE, H), StripWord(s, IGNORE);
    if t.Some? {
      ParseKeeps(TrimStart(t.value), o.(temporary := true));
    } else if h.Some? {
      ParseKeeps(TrimStart(h.value), o.(hardware := true));
    } else if i.Some? && Count(i.value, o).Ok? {
      ParseKeeps(Count(i.value, o).value.0, Count(i.value, o).value.1);
    }
  }

  /** A bare condition is read as itself iff it does not start with one of the words. */
  lemma BareConditionIff(text: string)
    requires Trimmed(text) && text != ""
    ensures Parse(text) == Ok(DEFAULT.(condition := Some(text))) <==> !StartsWithWord(text)
  {
    TrimAround("", text, "");
    assert "" + text + "" == text;
    var t, h, i := StripEither(text, TEMPORARY, T), StripEither(text, HARDWARE, H), StripWord(text, IGNORE);
    if t.Some? {
      ParseKeeps(TrimStart(t.value), DEFAULT.(temporary := true));
    } else if h.Some? {
      ParseKeeps(TrimStart(h.value), DEFAULT.(hardware := true));
    } else if i.Some? {
      if Count(i.value, DEFAULT).Ok? {
        ParseKeeps(Count(i.value, DEFAULT).value.0, Count(i.value, DEFAULT).value.1);
      }
    } else {
      ConditionShorter(text);
    }
  }

  lemma ConditionShorter(text: string)
    requires text != "" && Trim(text) == text
    ensures WithCondition(text, DEFAULT) == DEFAULT.(condition := Some(text))
            <==> !(StripWord(text, CONDITION).Some? || StripEither(text, C, IF).Some?)
  {
    if Starts(text, CONDITION) {
      assert text[..|CONDITION|][0] == text[0] && text[..|CONDITION|][1] == text[1];
      Differs(text, C, 1);
      Differs(text, IF, 0);
    }
  }

  // A function name before the options

  const SEPARATOR := " -- "

  predicate At(s: string, i: nat)
  {
    i + 4 <= |s| && s[i..i + 4] == SEPARATOR
  }

  function FindSeparator(s: string, from: nat := 0): (i: nat)
    requires from <= |s|
    ensures from <= i <= |s| && (i < |s| ==> At(s, i)) && forall j :: from <= j < i ==> !At(s, j)
    decreases |s| - from
  {
    if from == |s| || At(s, from) then from else FindSeparator(s, from + 1)
  }

  function ParseFunction(input: string): (r: Result<(string, Options), Error>)
  {
    var i := FindSeparator(input);
    var name := Trim(input[..i]);
    if name == "" then Err(NoName)
    else
      match Parse(if i < |input| then input[i + 4..] else "")
      case Ok(o) => Ok((name, o))
      case Err(e) => Err(e)
  }

  ghost predicate Contains(s: string)
  {
    exists i :: 0 <= i < |s| && At(s, i)
  }

  /** Before the separator that was written, another is found iff the name and a space hold one. */
  lemma EarlierIff(name: string, rest: string, i: nat)
    requires i < |name| && Trimmed(name)
    ensures At(name + SEPARATOR + rest, i) <==> At(name + " ", i)
  {
    var s := name + SEPARATOR + rest;
    assert forall j :: 0 <= j < |name| ==> s[j] == name[j] && (name + " ")[j] == name[j];
    assert s[|name|] == ' ' && s[|name| + 1] == '-' && (name + " ")[|name|] == ' ';
  }

  /** A trimmed name and the options after it come back iff no separator is hidden in the name. */
  lemma FunctionRoundTripIff(name: string, text: string, o: Options)
    requires name != "" && Trimmed(name) && Parse(text) == Ok(o)
    ensures ParseFunction(name + SEPARATOR + text) == Ok((name, o)) <==> !Contains(name + " ")
  {
    var s := name + SEPARATOR + text;
    var i := FindSeparator(s);
    assert At(s, |name|) by {
      assert s[|name|..|name| + 4] == SEPARATOR;
    }
    if i < |name| {
      EarlierIff(name, text, i);
      assert |Trim(s[..i])| < |name|;
    } else {
      assert i == |name| && s[..i] == name && s[i + 4..] == text;
      TrimAround("", name, "");
      assert "" + name + "" == name;
      forall j | 0 <= j < |name + " "| ensures !At(name + " ", j) {
        if j < |name| {
          EarlierIff(name, text, j);
        }
      }
    }
  }

  lemma NameAloneIff(name: string)
    requires name != "" && Trimmed(name)
    ensures ParseFunction(name) == Ok((name, DEFAULT)) <==> !Contains(name)
  {
    var i := FindSeparator(name);
    if i == |name| {
      assert name[..i] == name;
      TrimAround("", name, "");
      assert "" + name + "" == name;
      TailRead(NoCondition, DEFAULT);
      assert Trim("") == "";
    } else {
      assert |Trim(name[..i])| < |name|;
    }
  }

  // Texts that do not come back

  /** A condition that happens to start with an option word loses it. */
  lemma ConditionLosesIf()
    ensures Parse("if x") != Ok(DEFAULT.(condition := Some("if x")))
  {
    var text := "if x";
    assert text[..2] == IF && text[2..] == " x";
    Differs(text, C, 0);
    assert StripEither(text, C, IF).Some?;
    BareConditionIff(text);
  }

  /** A name that ends in dashes makes a separator with the space after it. */
  lemma DashedNameSplits()
    ensures ParseFunction("a --" + SEPARATOR + "") != Ok(("a --", DEFAULT))
  {
    assert Trim("") == "";
    TailRead(NoCondition, DEFAULT);
    var name := "a --";
    assert (name + " ")[1..5] == SEPARATOR;
    assert At(name + " ", 1) && Contains(name + " ");
    FunctionRoundTripIff(name, "", DEFAULT);
  }

  lemma NameWithSeparatorSplits()
    ensures ParseFunction("a -- b") != Ok(("a -- b", DEFAULT))
  {
    var name := "a -- b";
    assert name[1..5] == SEPARATOR;
    assert At(name, 1) && Contains(name);
    NameAloneIff(name);
  }
}
