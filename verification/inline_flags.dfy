/** The `!model` and `!reasoning` flags a request may start with, and the texts they are read from. */
module InlineFlags {
  import opened Options
  import opened JsText

  datatype Name = Model | Reasoning

  datatype PromptOptions = PromptOptions(model: Option<string>, reasoningEffort: Option<string>)

  const NO_OPTIONS := PromptOptions(None, None)

  datatype Flag = Flag(name: Name, value: string, length: nat)

  datatype FlagError = NeedsValue(name: Name) | GivenTwice(name: Name)

  datatype Parsed = Parsed(text: string, options: PromptOptions)

  function NameText(n: Name): string {
    match n case Model => "!model" case Reasoning => "!reasoning"
  }

  /** The characters up to the first white space. */
  function Word(s: string): (w: string)
    ensures w <= s
  {
    if s != "" && !IsSpace(s[0]) then [s[0]] + Word(s[1..]) else ""
  }

  /** A flag's value, and where it ends. */
  datatype Value = Value(text: string, end: nat)

  lemma TrimStartShortens(s: string)
    ensures |TrimStart(s)| <= |s| && s[|s| - |TrimStart(s)|..] == TrimStart(s)
  {
    var space := TrimStartSplits(s);
  }

  /** The value in what follows a flag's name: after a colon, or after a gap that begins with a plain space. */
  function ReadAfterName(after: string): (v: Option<Value>)
    ensures v.Some? ==> v.value.end <= |after|
  {
    if after != "" && after[0] == ':' then
      var value := Word(after[1..]);
      Some(Value(value, 1 + |value|))
    else if after == "" || after[0] == ' ' then
      TrimStartShortens(after);
      var value := Word(TrimStart(after));
      Some(Value(value, |after| - |TrimStart(after)| + |value|))
    else None
  }

  /** The value given to the flag written `p`. */
  function ReadValue(text: string, p: string): (v: Option<Value>)
    ensures v.Some? ==> |p| <= v.value.end <= |text|
  {
    if !(p <= text) then None else
    match ReadAfterName(text[|p|..])
    case None => None
    case Some(v) => Some(Value(v.text, |p| + v.end))
  }

  function ReadFlag(text: string): (f: Option<Flag>)
    ensures f.Some? ==> 0 < f.value.length <= |text|
  {
    match ReadValue(text, NameText(Model))
    case Some(v) => Some(Flag(Model, v.text, v.end))
    case None =>
      match ReadValue(text, NameText(Reasoning))
      case Some(v) => Some(Flag(Reasoning, v.text, v.end))
      case None => None
  }

  function Get(o: PromptOptions, n: Name): Option<string> {
    match n case Model => o.model case Reasoning => o.reasoningEffort
  }

  function Set(o: PromptOptions, n: Name, value: string): PromptOptions {
    match n case Model => o.(model := Some(value)) case Reasoning => o.(reasoningEffort := Some(value))
  }

  /** What parsing `remaining` answers when `o` has been read before it. */
  function ParseFrom(remaining: string, o: PromptOptions): Result<Parsed, FlagError>
    decreases |remaining|
  {
    match ReadFlag(remaining)
    case None => Ok(Parsed(Trim(remaining), o))
    case Some(f) =>
      if f.value == "" || f.value[0] == '!' then Err(NeedsValue(f.name))
      else if Get(o, f.name).Some? then Err(GivenTwice(f.name))
      else
        TrimStartShortens(remaining[f.length..]);
        ParseFrom(TrimStart(remaining[f.length..]), Set(o, f.name, f.value))
  }

  method ParseInlinePromptFlags(text: string) returns (r: Result<Parsed, FlagError>)
    ensures r == ParseFrom(TrimStart(text), NO_OPTIONS)
  {
    var remaining := TrimStart(text);
    var options := NO_OPTIONS;
    while remaining != ""
      invariant ParseFrom(TrimStart(text), NO_OPTIONS) == ParseFrom(remaining, options)
      decreases |remaining|
    {
      var flag := ReadFlag(remaining);
      if flag.None? { break; }
      var f := flag.value;
      if f.value == "" || f.value[0] == '!' { return Err(NeedsValue(f.name)); }
      if Get(options, f.name).Some? { return Err(GivenTwice(f.name)); }
      options := Set(options, f.name, f.value);
      TrimStartShortens(remaining[f.length..]);
      remaining := TrimStart(remaining[f.length..]);
    }
    return Ok(Parsed(Trim(remaining), options));
  }

  // ----- how flags are written -----

  /** One flag as written: with a colon, or with a gap that begins with a plain space; `after` follows its value. */
  datatype Item = Item(name: Name, colon: bool, gap: string, value: string, after: string)

  function Separator(i: Item): string {
    if i.colon then ":" else i.gap
  }

  /** What an item writes after its name. */
  function AfterName(i: Item, rest: string): string {
    Separator(i) + (i.value + (i.after + rest))
  }

  function PrintBefore(i: Item, rest: string): string {
    NameText(i.name) + AfterName(i, rest)
  }

  function Print(items: seq<Item>, tail: string): string {
    if items == [] then tail else PrintBefore(items[0], Print(items[1..], tail))
  }

  predicate Bare(value: string) {
    forall c :: c in value ==> !IsSpace(c)
  }

  predicate ValidItem(i: Item) {
    && i.value != "" && i.value[0] != '!' && Bare(i.value)
    && (!i.colon ==> i.gap != "" && i.gap[0] == ' ' && AllSpace(i.gap))
    && AllSpace(i.after)
  }

  predicate StartsBare(s: string) {
    s == "" || !IsSpace(s[0])
  }

  /** Values are set off from what follows them. */
  predicate WellWritten(items: seq<Item>, tail: string) {
    && (forall k :: 0 <= k < |items| ==> ValidItem(items[k]))
    && (forall k :: 0 <= k < |items| && items[k].after == "" ==> k == |items| - 1 && tail == "")
    && StartsBare(tail)
  }

  function Apply(o: PromptOptions, items: seq<Item>): PromptOptions
    decreases |items|
  {
    if items == [] then o else Apply(Set(o, items[0].name, items[0].value), items[1..])
  }

  /** The first flag that was given before. */
  function FirstRepeat(o: PromptOptions, items: seq<Item>): Option<Name>
    decreases |items|
  {
    if items == [] then None
    else if Get(o, items[0].name).Some? then Some(items[0].name)
    else FirstRepeat(Set(o, items[0].name, items[0].value), items[1..])
  }

  lemma {:induction false} WordOf(value: string, rest: string)
    requires Bare(value) && (rest == "" || IsSpace(rest[0]))
    ensures Word(value + rest) == value
  {
    if value == "" { assert value + rest == rest; }
    else {
      assert value[0] in value && (value + rest)[1..] == value[1..] + rest;
      WordOf(value[1..], rest);
    }
  }

  lemma {:induction false} WordEnds(s: string)
    ensures var rest := s[|Word(s)|..];
            s == Word(s) + rest && (rest == "" || IsSpace(rest[0])) && Bare(Word(s))
  {
    if s != "" && !IsSpace(s[0]) { WordEnds(s[1..]); }
  }

  lemma {:induction false} PrintStartsBare(items: seq<Item>, tail: string)
    requires WellWritten(items, tail)
    ensures StartsBare(Print(items, tail))
  {}

  /** A value, set off from what follows it. */
  predicate SetOff(value: string, follows: string) {
    Bare(value) && (follows == "" || IsSpace(follows[0]))
  }

  lemma ReadsColon(value: string, follows: string)
    requires SetOff(value, follows)
    ensures var after := ":" + (value + follows);
            ReadAfterName(after) == Some(Value(value, 1 + |value|)) && after[1 + |value|..] == follows
  {
    var after := ":" + (value + follows);
    WordOf(value, follows);
    assert after[1..] == value + follows;
  }

  lemma ReadsGap(gap: string, value: string, follows: string)
    requires SetOff(value, follows) && gap != "" && gap[0] == ' ' && AllSpace(gap) && value != ""
    ensures var after := gap + (value + follows);
            ReadAfterName(after) == Some(Value(value, |gap| + |value|)) && after[|gap| + |value|..] == follows
  {
    WordOf(value, follows);
    TrimStartSkips(gap, value + follows);
    assert value[0] in value;
    assert TrimStart(value + follows) == value + follows;
  }

  /** The two names differ in their second character, so a value read after either is the flag's. */
  lemma FlagNamed(n: Name, after: string, v: Value)
    requires ReadAfterName(after) == Some(v)
    ensures ReadFlag(NameText(n) + after) == Some(Flag(n, v.text, |NameText(n)| + v.end))
  {
    var text := NameText(n) + after;
    assert text[|NameText(n)|..] == after;
    if n.Reasoning? { assert text[1] == 'r'; }
  }

  /** Where the value ends in a text that begins with the item. */
  function ValueEnd(i: Item): nat {
    |NameText(i.name)| + |Separator(i)| + |i.value|
  }

  lemma ReadsAfterName(i: Item, rest: string)
    requires ValidItem(i) && StartsBare(rest) && (i.after == "" ==> rest == "")
    ensures var after, end := AfterName(i, rest), |Separator(i)| + |i.value|;
            ReadAfterName(after) == Some(Value(i.value, end)) && after[end..] == i.after + rest
  {
    if i.after != "" { assert i.after[0] in i.after; }
    if i.colon { ReadsColon(i.value, i.after + rest); } else { ReadsGap(i.gap, i.value, i.after + rest); }
  }

  /** The flag written first is the flag read first. */
  lemma ReadsItem(i: Item, rest: string)
    requires ValidItem(i) && StartsBare(rest) && (i.after == "" ==> rest == "")
    ensures ReadFlag(PrintBefore(i, rest)) == Some(Flag(i.name, i.value, ValueEnd(i)))
  {
    ReadsAfterName(i, rest);
    FlagNamed(i.name, AfterName(i, rest), Value(i.value, |Separator(i)| + |i.value|));
  }

  lemma Dropped(p: string, s: string, k: nat)
    requires k <= |s|
    ensures (p + s)[|p| + k..] == s[k..]
  {}

  /** And what is left after it is what was written after it. */
  lemma LeavesRest(p: string, i: Item, rest: string)
    requires ValidItem(i) && StartsBare(rest) && (i.after == "" ==> rest == "")
    ensures var text, end := p + AfterName(i, rest), |p| + |Separator(i)| + |i.value|;
            end <= |text| && TrimStart(text[end..]) == rest
  {
    ReadsAfterName(i, rest);
    Dropped(p, AfterName(i, rest), |Separator(i)| + |i.value|);
    TrimStartSkips(i.after, rest);
  }

  lemma RestWellWritten(items: seq<Item>, tail: string)
    requires WellWritten(items, tail) && items != []
    ensures WellWritten(items[1..], tail) && ValidItem(items[0])
    ensures items[0].after == "" ==> Print(items[1..], tail) == ""
  {
    assert forall k :: 0 <= k < |items| - 1 ==> items[1..][k] == items[k + 1];
  }

  lemma ParsesOneFlag(text: string, o: PromptOptions, i: Item, length: nat)
    requires ReadFlag(text) == Some(Flag(i.name, i.value, length)) && ValidItem(i)
    ensures ParseFrom(text, o) == if Get(o, i.name).Some? then Err(GivenTwice(i.name))
                                  else ParseFrom(TrimStart(text[length..]), Set(o, i.name, i.value))
  {}

  /** Reading written flags: the first repeated one is refused, and otherwise the text after them is left. */
  lemma {:induction false} ReadsItems(items: seq<Item>, tail: string, o: PromptOptions)
    requires WellWritten(items, tail)
    ensures ParseFrom(Print(items, tail), o) ==
              match FirstRepeat(o, items)
              case Some(n) => Err(GivenTwice(n))
              case None => ParseFrom(tail, Apply(o, items))
  {
    if items != [] {
      var i := items[0];
      var rest := Print(items[1..], tail);
      RestWellWritten(items, tail);
      PrintStartsBare(items[1..], tail);
      ReadsItem(i, rest);
      LeavesRest(NameText(i.name), i, rest);
      ParsesOneFlag(Print(items, tail), o, i, ValueEnd(i));
      ReadsItems(items[1..], tail, Set(o, i.name, i.value));
    }
  }

  lemma ColonWritten(after: string)
    requires after != "" && after[0] == ':'
    ensures var v := ReadAfterName(after).value;
            after == ":" + (v.text + after[v.end..]) && SetOff(v.text, after[v.end..])
  {
    WordEnds(after[1..]);
  }

  lemma GapWritten(after: string) returns (gap: string)
    requires after != "" && after[0] == ' '
    ensures var v := ReadAfterName(after).value;
            && after == gap + (v.text + after[v.end..]) && SetOff(v.text, after[v.end..])
            && gap != "" && gap[0] == ' ' && AllSpace(gap)
  {
    gap := TrimStartSplits(after);
    WordEnds(TrimStart(after));
  }

  lemma WrittenAfterName(n: Name, after: string, v: Value) returns (i: Item)
    requires ReadAfterName(after) == Some(v) && v.text != "" && v.text[0] != '!'
    ensures var rest := TrimStart(after[v.end..]);
            && ValidItem(i) && i.name == n && i.value == v.text
            && after == AfterName(i, rest) && (i.after == "" ==> rest == "") && StartsBare(rest)
  {
    var colon, gap := after != "" && after[0] == ':', "";
    if colon { ColonWritten(after); } else { gap := GapWritten(after); }
    var follows := after[v.end..];
    var space := TrimStartSplits(follows);
    i := Item(n, colon, gap, v.text, space);
    if space == "" { assert follows == TrimStart(follows); }
  }

  /** A flag is its name and then its value. */
  predicate Names(text: string, p: string, f: Flag) {
    p <= text && |p| <= f.length && ReadAfterName(text[|p|..]) == Some(Value(f.value, f.length - |p|))
  }

  lemma FlagIsNamed(text: string, f: Flag)
    requires ReadFlag(text) == Some(f)
    ensures Names(text, NameText(f.name), f)
  {}

  /** Every flag that is read was written. */
  lemma WasWritten(p: string, n: Name, after: string, v: Value) returns (i: Item)
    requires p == NameText(n) && ReadAfterName(after) == Some(v) && v.text != "" && v.text[0] != '!'
    ensures var rest := TrimStart((p + after)[|p| + v.end..]);
            && ValidItem(i) && i.name == n && i.value == v.text
            && p + after == p + AfterName(i, rest) && (i.after == "" ==> rest == "") && StartsBare(rest)
  {
    Dropped(p, after, v.end);
    i := WrittenAfterName(n, after, v);
  }

  lemma WrittenBefore(first: Item, others: seq<Item>, tail: string)
    requires WellWritten(others, tail) && ValidItem(first) && (first.after == "" ==> Print(others, tail) == "")
    ensures WellWritten([first] + others, tail) && ([first] + others)[1..] == others
    ensures Print([first] + others, tail) == PrintBefore(first, Print(others, tail))
  {
    var items := [first] + others;
    assert items[1..] == others;
    assert forall k :: 1 <= k < |items| ==> items[k] == others[k - 1];
    if others != [] { assert |Print(others, tail)| > 0; }
  }

  /** The flag read first, as it was written. */
  lemma FirstWritten(text: string, f: Flag) returns (i: Item)
    requires ReadFlag(text) == Some(f) && f.value != "" && f.value[0] != '!'
    ensures var rest := TrimStart(text[f.length..]);
            && ValidItem(i) && i.name == f.name && i.value == f.value && text == PrintBefore(i, rest)
            && (i.after == "" ==> rest == "") && StartsBare(rest)
  {
    FlagIsNamed(text, f);
    var p := NameText(f.name);
    assert text == p + text[|p|..];
    i := WasWritten(p, f.name, text[|p|..], Value(f.value, f.length - |p|));
  }

  lemma {:induction false} OnlyWrittenFlags(text: string, o: PromptOptions) returns (items: seq<Item>, tail: string)
    requires StartsBare(text) && ParseFrom(text, o).Ok?
    ensures WellWritten(items, tail) && text == Print(items, tail) && FirstRepeat(o, items).None?
    ensures ReadFlag(tail).None?
    ensures ParseFrom(text, o) == Ok(Parsed(Trim(tail), Apply(o, items)))
    decreases |text|
  {
    items, tail := [], text;
    if ReadFlag(text).Some? {
      var f := ReadFlag(text).value;
      var first := FirstWritten(text, f);
      var rest := TrimStart(text[f.length..]);
      TrimStartShortens(text[f.length..]);
      var others;
      others, tail := OnlyWrittenFlags(rest, Set(o, f.name, f.value));
      items := [first] + others;
      WrittenBefore(first, others, tail);
    }
  }

  /**
   * A text parses to `p` exactly when it is white space, then flags with values and no flag twice, then
   * text that does not go on with a flag; `p` holds those values and that text, trimmed.
   */
  lemma ParsesExactly(text: string, p: Parsed)
    ensures ParseFrom(TrimStart(text), NO_OPTIONS) == Ok(p) <==>
            exists items, tail :: WellWritten(items, tail) && TrimStart(text) == Print(items, tail)
                                  && ReadFlag(tail).None? && FirstRepeat(NO_OPTIONS, items).None?
                                  && p == Parsed(Trim(tail), Apply(NO_OPTIONS, items))
  {
    var space := TrimStartSplits(text);
    if ParseFrom(TrimStart(text), NO_OPTIONS) == Ok(p) {
      var items, tail := OnlyWrittenFlags(TrimStart(text), NO_OPTIONS);
    }
    if items, tail :| WellWritten(items, tail) && TrimStart(text) == Print(items, tail) && ReadFlag(tail).None?
                      && FirstRepeat(NO_OPTIONS, items).None? && p == Parsed(Trim(tail), Apply(NO_OPTIONS, items)) {
      ReadsItems(items, tail, NO_OPTIONS);
    }
  }

  // ----- what is refused -----

  /** White space up to the end, or up to an exclamation mark. */
  predicate OnlySpaceBefore(s: string, k: nat) {
    k <= |s| && AllSpace(s[..k]) && (k == |s| || s[k] == '!')
  }

  /** After a flag's name there is no value, or one that begins with an exclamation mark. */
  predicate LacksValue(after: string) {
    || after == ""
    || (after[0] == ':' && (|after| == 1 || IsSpace(after[1]) || after[1] == '!'))
    || (after[0] == ' ' && exists k :: 1 <= k <= |after| && OnlySpaceBefore(after, k))
  }

  predicate FlagWithoutValue(text: string, n: Name, after: string) {
    text == (match n case Model => "!model" case Reasoning => "!reasoning") + after && LacksValue(after)
  }

  lemma WordIsNoValue(s: string)
    ensures Word(s) == "" || Word(s)[0] == '!' <==> s == "" || IsSpace(s[0]) || s[0] == '!'
  {}

  lemma GapIsNoValue(after: string)
    requires after != "" && after[0] == ' '
    ensures (TrimStart(after) == "" || TrimStart(after)[0] == '!')
            <==> exists k :: 1 <= k <= |after| && OnlySpaceBefore(after, k)
  {
    var gap := TrimStartSplits(after);
    if TrimStart(after) == "" || TrimStart(after)[0] == '!' {
      assert after[..|gap|] == gap;
      assert OnlySpaceBefore(after, |gap|);
    }
    if k :| 1 <= k <= |after| && OnlySpaceBefore(after, k) {
      assert after == after[..k] + after[k..];
      TrimStartSkips(after[..k], after[k..]);
    }
  }

  /** A value that is missing, or that begins with an exclamation mark, is one that was written so. */
  lemma LacksValueExactly(after: string)
    ensures LacksValue(after) <==>
            var v := ReadAfterName(after); v.Some? && (v.value.text == "" || v.value.text[0] == '!')
  {
    if after != "" && after[0] == ':' { WordIsNoValue(after[1..]); }
    else if after != "" && after[0] == ' ' {
      var space := TrimStartSplits(after);
      WordIsNoValue(TrimStart(after));
      GapIsNoValue(after);
    }
  }

  lemma WithoutValueRefused(text: string, n: Name, after: string, o: PromptOptions)
    requires FlagWithoutValue(text, n, after)
    ensures ParseFrom(text, o) == Err(NeedsValue(n))
  {
    LacksValueExactly(after);
    FlagNamed(n, after, ReadAfterName(after).value);
  }

  lemma RefusedWithoutValue(text: string, f: Flag) returns (after: string)
    requires ReadFlag(text) == Some(f) && (f.value == "" || f.value[0] == '!')
    ensures FlagWithoutValue(text, f.name, after)
  {
    FlagIsNamed(text, f);
    after := text[|NameText(f.name)|..];
    LacksValueExactly(after);
  }

  /** Whatever is refused was written: flags up to a repeated one, or up to one without a value. */
  lemma {:induction false} RefusedAsWritten(text: string, o: PromptOptions)
    returns (items: seq<Item>, tail: string, after: string)
    requires StartsBare(text) && ParseFrom(text, o).Err?
    ensures WellWritten(items, tail) && text == Print(items, tail)
    ensures match ParseFrom(text, o).error
            case GivenTwice(n) => FirstRepeat(o, items) == Some(n)
            case NeedsValue(n) => FirstRepeat(o, items).None? && FlagWithoutValue(tail, n, after)
    decreases |text|
  {
    items, tail, after := [], text, "";
    var f := ReadFlag(text).value;
    if f.value == "" || f.value[0] == '!' {
      after := RefusedWithoutValue(text, f);
    } else {
      var first := FirstWritten(text, f);
      var rest := TrimStart(text[f.length..]);
      TrimStartShortens(text[f.length..]);
      var others: seq<Item> := [];
      tail := rest;
      if Get(o, f.name).None? { others, tail, after := RefusedAsWritten(rest, Set(o, f.name, f.value)); }
      items := [first] + others;
      WrittenBefore(first, others, tail);
    }
  }

  /** A text is refused for a missing value exactly when it is flags, none repeated, and a flag without a value. */
  lemma NeedsValueExactly(text: string, n: Name)
    ensures ParseFrom(TrimStart(text), NO_OPTIONS) == Err(NeedsValue(n)) <==>
            exists items, tail, after :: WellWritten(items, tail) && TrimStart(text) == Print(items, tail)
                                         && FirstRepeat(NO_OPTIONS, items).None? && FlagWithoutValue(tail, n, after)
  {
    var space := TrimStartSplits(text);
    if ParseFrom(TrimStart(text), NO_OPTIONS) == Err(NeedsValue(n)) {
      var items, tail, after := RefusedAsWritten(TrimStart(text), NO_OPTIONS);
    }
    if items, tail, after :| WellWritten(items, tail) && TrimStart(text) == Print(items, tail)
                             && FirstRepeat(NO_OPTIONS, items).None? && FlagWithoutValue(tail, n, after) {
      ReadsItems(items, tail, NO_OPTIONS);
      WithoutValueRefused(tail, n, after, Apply(NO_OPTIONS, items));
    }
  }

  /** And for a repeated flag exactly when it begins with flags of which that one is the first repeated. */
  lemma GivenTwiceExactly(text: string, n: Name)
    ensures ParseFrom(TrimStart(text), NO_OPTIONS) == Err(GivenTwice(n)) <==>
            exists items, tail :: WellWritten(items, tail) && TrimStart(text) == Print(items, tail)
                                  && FirstRepeat(NO_OPTIONS, items) == Some(n)
  {
    var space := TrimStartSplits(text);
    if ParseFrom(TrimStart(text), NO_OPTIONS) == Err(GivenTwice(n)) {
      var items, tail, after := RefusedAsWritten(TrimStart(text), NO_OPTIONS);
    }
    if items, tail :| WellWritten(items, tail) && TrimStart(text) == Print(items, tail)
                      && FirstRepeat(NO_OPTIONS, items) == Some(n) {
      ReadsItems(items, tail, NO_OPTIONS);
    }
  }

  // ----- two flags, any order, any syntax -----

  lemma {:induction false} RepeatFound(o: PromptOptions, items: seq<Item>, j: nat)
    requires j < |items| && Get(o, items[j].name).Some?
    ensures FirstRepeat(o, items).Some?
    decreases |items|
  {
    if j > 0 { RepeatFound(Set(o, items[0].name, items[0].value), items[1..], j - 1); }
  }

  lemma {:induction false} TwiceFound(o: PromptOptions, items: seq<Item>, i: nat, j: nat)
    requires i < j < |items| && items[i].name == items[j].name
    ensures FirstRepeat(o, items).Some?
    decreases |items|
  {
    var next := Set(o, items[0].name, items[0].value);
    if i == 0 { RepeatFound(next, items[1..], j - 1); } else { TwiceFound(next, items[1..], i - 1, j - 1); }
  }

  /** A flag given twice is refused, whatever stands between, before and after. */
  lemma RepeatedFlagRefused(items: seq<Item>, tail: string, i: nat, j: nat)
    requires WellWritten(items, tail) && i < j < |items| && items[i].name == items[j].name
    ensures var r := ParseFrom(Print(items, tail), NO_OPTIONS); r.Err? && r.error.GivenTwice?
  {
    TwiceFound(NO_OPTIONS, items, i, j);
    ReadsItems(items, tail, NO_OPTIONS);
  }

  lemma AppliesTwo(a: Item, b: Item)
    ensures Apply(NO_OPTIONS, [a, b]) == Set(Set(NO_OPTIONS, a.name, a.value), b.name, b.value)
    ensures a.name != b.name ==> FirstRepeat(NO_OPTIONS, [a, b]).None?
  {
    var one := Set(NO_OPTIONS, a.name, a.value);
    assert [a, b][1..] == [b] && [b][1..] == [];
    assert Apply(one, [b]) == Apply(Set(one, b.name, b.value), []);
    assert FirstRepeat(one, [b]) == if Get(one, b.name).Some? then Some(b.name)
                                    else FirstRepeat(Set(one, b.name, b.value), []);
  }

  lemma BothFlagsEitherOrder(a: Item, b: Item, text: string)
    requires a.name.Model? && b.name.Reasoning? && Trimmed(text) && ReadFlag(text).None?
    requires WellWritten([a, b], text) && WellWritten([b, a], text)
    ensures var both := Ok(Parsed(text, PromptOptions(Some(a.value), Some(b.value))));
            ParseFrom(Print([a, b], text), NO_OPTIONS) == both && ParseFrom(Print([b, a], text), NO_OPTIONS) == both
  {
    ReadsItems([a, b], text, NO_OPTIONS);
    ReadsItems([b, a], text, NO_OPTIONS);
    AppliesTwo(a, b);
    AppliesTwo(b, a);
    TrimmedIsFixed(text);
  }

  // ----- the final trim -----

  predicate BareName(s: string) {
    s == NameText(Model) || s == NameText(Reasoning)
  }

  /** A flag that goes on after its name is read in every longer text too. */
  lemma StillRead(t: string, text: string, n: Name)
    requires t <= text
    ensures NameText(n) + ":" <= t || NameText(n) + " " <= t || text == NameText(n) || NameText(n) + " " <= text
            ==> ReadFlag(text).Some?
  {}

  lemma {:induction false} BareTrims(s: string, space: string)
    requires s != "" && !IsSpace(s[|s| - 1]) && AllSpace(space)
    ensures TrimEnd(s + space) == s
    decreases |space|
  {
    if space == "" { assert s + space == s; }
    else {
      assert (s + space)[..|s + space| - 1] == s + space[..|space| - 1];
      assert space[|space| - 1] in space;
      BareTrims(s, space[..|space| - 1]);
    }
  }

  lemma BareTailExposes(n: Name, space: string)
    requires AllSpace(space)
    ensures Trim(NameText(n) + space) == NameText(n) && ReadFlag(NameText(n)).Some?
  {
    BareTrims(NameText(n), space);
    StillRead(NameText(n), NameText(n), n);
  }

  lemma ExposedFlag(tail: string) returns (n: Name, space: string)
    requires ReadFlag(TrimEnd(tail)).Some? && ReadFlag(tail).None?
    ensures AllSpace(space) && space != "" && space[0] != ' ' && tail == NameText(n) + space
    ensures TrimEnd(tail) == NameText(n)
  {
    var t := TrimEnd(tail);
    space := TrimEndSplits(tail);
    n := ReadFlag(t).value.name;
    if space != "" { assert tail[..|t| + 1] == t + [space[0]]; }
    StillRead(t, tail, n);
  }

  /**
   * The text left over reads as a flag once trimmed exactly when it is a bare flag name followed by
   * white space that does not begin with a plain space.
   */
  lemma TrimExposesFlag(tail: string)
    requires StartsBare(tail) && ReadFlag(tail).None?
    ensures ReadFlag(Trim(tail)).Some? <==> BareName(Trim(tail))
    ensures ReadFlag(Trim(tail)).Some? <==>
            exists n, space :: AllSpace(space) && space != "" && space[0] != ' ' && tail == NameText(n) + space
  {
    assert Trim(tail) == TrimEnd(tail);
    if ReadFlag(TrimEnd(tail)).Some? { var n, space := ExposedFlag(tail); }
    if n, sp :| AllSpace(sp) && sp != "" && sp[0] != ' ' && tail == NameText(n) + sp { BareTailExposes(n, sp); }
    if BareName(Trim(tail)) {
      var n := if Trim(tail) == NameText(Model) then Model else Reasoning;
      StillRead(Trim(tail), Trim(tail), n);
    }
  }

  /** White space that does not begin with a plain space ends a bare name without making it a flag. */
  lemma BareTailIsNoFlag(n: Name, space: string)
    requires AllSpace(space) && space != "" && space[0] != ' '
    ensures ReadFlag(NameText(n) + space).None?
  {
    var tail := NameText(n) + space;
    assert space[0] in space && tail[|NameText(n)|..] == space;
    assert ReadAfterName(space).None?;
    assert tail[1] == NameText(n)[1];
  }

  /** The text ends, after any flags, with a bare name and white space that does not begin with a plain space. */
  predicate LeavesBareName(text: string, items: seq<Item>, n: Name, space: string) {
    && AllSpace(space) && space != "" && space[0] != ' '
    && WellWritten(items, NameText(n) + space) && FirstRepeat(NO_OPTIONS, items).None?
    && TrimStart(text) == Print(items, NameText(n) + space)
  }

  lemma BareNameComesBack(text: string, items: seq<Item>, n: Name, space: string)
    requires LeavesBareName(text, items, n, space)
    ensures var r := ParseFrom(TrimStart(text), NO_OPTIONS);
            r.Ok? && r.value.text == NameText(n) && ReadFlag(NameText(n)).Some?
  {
    ReadsItems(items, NameText(n) + space, NO_OPTIONS);
    BareTailIsNoFlag(n, space);
    BareTailExposes(n, space);
  }

  /**
   * Parsing a text returns text that is itself a flag exactly when the input ends, after white space and
   * flags that are not repeated, with a bare flag name and white space that does not begin with a plain space.
   */
  lemma ReturnsFlagExactly(text: string)
    ensures (var r := ParseFrom(TrimStart(text), NO_OPTIONS); r.Ok? && ReadFlag(r.value.text).Some?)
            <==> exists items, n, space :: LeavesBareName(text, items, n, space)
  {
    var r := ParseFrom(TrimStart(text), NO_OPTIONS);
    var before := TrimStartSplits(text);
    if r.Ok? && ReadFlag(r.value.text).Some? {
      var items, tail := OnlyWrittenFlags(TrimStart(text), NO_OPTIONS);
      TrimExposesFlag(tail);
      var n, space :| AllSpace(space) && space != "" && space[0] != ' ' && tail == NameText(n) + space;
      assert LeavesBareName(text, items, n, space);
    }
    if items, n, space :| LeavesBareName(text, items, n, space) { BareNameComesBack(text, items, n, space); }
  }

  /** A bare name before a tab comes back as text that is itself a flag. */
  lemma TabLeavesBareName()
    ensures ParseFrom("!model\t", NO_OPTIONS) == Ok(Parsed("!model", NO_OPTIONS)) && ReadFlag("!model").Some?
  {
    BareTrims("!model", "\t");
    assert "!model" + "\t" == "!model\t";
    assert TrimStart("!model\t") == "!model\t";
    assert "!model\t"[6] == '\t';
  }
}
