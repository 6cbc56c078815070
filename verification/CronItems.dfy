/** The texts of cron items and fields, and what the field-skipping package reads them as. */
module CronItems {
  import opened Wrappers
  import opened Text
  import opened CronParser

  /** A bound of an item: a number, or a name in any case. */
  datatype Bound = Number(n: nat) | Word(text: string)

  /** `*` or `?`, a single bound, or a range. */
  datatype Ends = Any(mark: char) | Single(a: Bound) | Span(a: Bound, b: Bound)

  function BoundText(b: Bound): string {
    match b
    case Number(n) => Itoa(n)
    case Word(text) => text
  }

  function EndsText(e: Ends): string {
    match e
    case Any(mark) => [mark]
    case Single(a) => BoundText(a)
    case Span(a, b) => BoundText(a) + "-" + BoundText(b)
  }

  function ItemText(e: Ends, step: Option<nat>): string {
    EndsText(e) + if step.Some? then "/" + Itoa(step.value) else ""
  }

  predicate IsName(text: string, r: Bounds) { ToLower(text) in r.names }

  predicate Known(b: Bound, r: Bounds) {
    match b
    case Number(n) => n < 0x8000_0000_0000_0000
    case Word(text) => IsName(text, r)
  }

  predicate Legible(e: Ends, step: Option<nat>, r: Bounds) {
    && (step.Some? ==> step.value < 0x8000_0000_0000_0000)
    && match e
       case Any(mark) => mark == '*' || mark == '?'
       case Single(a) => Known(a, r)
       case Span(a, b) => Known(a, r) && Known(b, r)
  }

  function BoundValue(b: Bound, r: Bounds): nat
    requires Known(b, r)
  {
    match b
    case Number(n) => n
    case Word(text) => r.names[ToLower(text)]
  }

  /** What an item asks for: a single bound with a step runs to the maximum, and a star with a step above one
    * is no star.
    */
  function Meant(e: Ends, step: Option<nat>, r: Bounds): Item
    requires Legible(e, step, r)
  {
    var n := if step.Some? then step.value else 1;
    match e
    case Any(_) => Item(r.min, r.max, n, n <= 1)
    case Single(a) => Item(BoundValue(a, r), if step.Some? then r.max else BoundValue(a, r), n, false)
    case Span(a, b) => Item(BoundValue(a, r), BoundValue(b, r), n, false)
  }

  /** An item is refused when it starts below or ends above its field, ends before it starts, or has step 0. */
  function Checked(item: Item, r: Bounds): Result<Item, ParseError> {
    if item.start < r.min then Err(BelowMinimum)
    else if item.end > r.max then Err(AboveMaximum)
    else if item.start > item.end then Err(StartAfterEnd)
    else if item.step == 0 then Err(ZeroStep)
    else Ok(item)
  }

  /** The names of a field are lower-case words. */
  ghost predicate NamesAreLetters(names: map<string, nat>) {
    forall name :: name in names ==> name != "" && forall k :: 0 <= k < |name| ==> 'a' <= name[k] <= 'z'
  }

  lemma BoundReads(b: Bound, r: Bounds)
    requires Known(b, r) && NamesAreLetters(r.names)
    ensures var text := BoundText(b);
            && ParseIntOrName(text, r.names) == Ok(BoundValue(b, r))
            && text != "" && '-' !in text && '/' !in text && ',' !in text && '*' !in text && '?' !in text
  {
    var text := BoundText(b);
    match b
    case Number(n) =>
      Numeral(n);
      hide Atoi, Itoa, TrimSpace;
      assert IsDigit(text[0]);
      assert ToLower(text)[0] == text[0];
    case Word(_) =>
      assert forall k :: 0 <= k < |text| ==> 'a' <= ToLower(text)[k] <= 'z';
      assert forall k :: 0 <= k < |text| ==> 'a' <= text[k] <= 'z' || 'A' <= text[k] <= 'Z';
  }

  /** The bounds of an item before they are checked, and whether it is a star. */
  function EndValues(e: Ends, r: Bounds): (nat, nat)
    requires Legible(e, None, r)
  {
    match e
    case Any(_) => (r.min, r.max)
    case Single(a) => (BoundValue(a, r), BoundValue(a, r))
    case Span(a, b) => (BoundValue(a, r), BoundValue(b, r))
  }

  lemma EndsRead(e: Ends, r: Bounds)
    requires Legible(e, None, r) && NamesAreLetters(r.names)
    ensures EndsText(e) != "" && '/' !in EndsText(e) && ',' !in EndsText(e)
    ensures var parts := Split(EndsText(e), '-');
            && (e.Any? <==> IsStar(parts[0])) && (e.Span? ==> |parts| == 2) && (!e.Span? ==> |parts| == 1)
            && ParseEnds(parts, r) == Ok(EndValues(e, r))
  {
    hide ParseIntOrName, BoundValue, Split, NamesAreLetters;
    match e
    case Any(mark) =>
      hide BoundText;
      assert Split([mark], '-') == [[mark]];
    case Single(a) =>
      BoundReads(a, r);
      hide BoundText;
    case Span(a, b) =>
      BoundReads(a, r);
      BoundReads(b, r);
      hide BoundText;
      SplitAt(BoundText(a), '-', BoundText(b));
      assert BoundText(a) + ['-'] + BoundText(b) == EndsText(e);
  }

  lemma StepReads(text: string, step: nat)
    requires '/' !in text && step < 0x8000_0000_0000_0000
    ensures Split(text + "/" + Itoa(step), '/') == [text, Itoa(step)] && MustParseInt(Itoa(step)) == Ok(step)
  {
    Numeral(step);
    hide Atoi, Itoa;
    SplitAt(text, '/', Itoa(step));
    assert Split(Itoa(step), '/') == [Itoa(step)];
  }

  lemma ItemSplits(e: Ends, step: Option<nat>)
    requires '/' !in EndsText(e) && (step.Some? ==> step.value < 0x8000_0000_0000_0000)
    ensures step.None? ==> Split(ItemText(e, step), '/') == [EndsText(e)]
    ensures step.Some? ==> Split(ItemText(e, step), '/') == [EndsText(e), Itoa(step.value)]
    ensures step.Some? ==> MustParseInt(Itoa(step.value)) == Ok(step.value)
  {
    hide EndsText, Itoa, MustParseInt, Split;
    if step.Some? {
      StepReads(EndsText(e), step.value);
      assert EndsText(e) + "/" + Itoa(step.value) == ItemText(e, step);
    } else {
      assert EndsText(e) + "" == EndsText(e);
    }
  }

  lemma RangeReads(expr: string, e: Ends, step: Option<nat>, r: Bounds, parts: seq<string>, sides: seq<string>)
    requires Legible(e, step, r) && parts != [] && Split(expr, '/') == parts && Split(parts[0], '-') == sides
    requires (if step.Some? then |parts| == 2 && MustParseInt(parts[1]) == Ok(step.value) else |parts| == 1)
    requires (e.Any? <==> IsStar(sides[0])) && (e.Span? ==> |sides| == 2) && (!e.Span? ==> |sides| == 1)
    requires ParseEnds(sides, r) == Ok(EndValues(e, r))
    ensures ParseRange(expr, r) == Checked(Meant(e, step, r), r)
  {
    hide Split, MustParseInt, IsStar, ParseEnds, BoundValue;
  }

  /** Every item is read from its text as what it asks for, or refused with the first fault. */
  lemma ItemRoundTrip(e: Ends, step: Option<nat>, r: Bounds)
    requires Legible(e, step, r) && NamesAreLetters(r.names)
    ensures ParseRange(ItemText(e, step), r) == Checked(Meant(e, step, r), r)
  {
    EndsRead(e, r);
    hide EndsText, BoundValue, ParseEnds, ItemText, Itoa, MustParseInt, Split, IsStar, EndValues, NamesAreLetters;
    ItemSplits(e, step);
    var expr := ItemText(e, step);
    RangeReads(expr, e, step, r, Split(expr, '/'), Split(EndsText(e), '-'));
  }

  /** The names of the months, and no others. */
  lemma MonthNames(name: string)
    ensures MONTHS.names == map["jan" := 1, "feb" := 2, "mar" := 3, "apr" := 4, "may" := 5, "jun" := 6,
                                "jul" := 7, "aug" := 8, "sep" := 9, "oct" := 10, "nov" := 11, "dec" := 12]
    ensures name in MONTHS.names ==> |name| == 3 && forall k :: 0 <= k < 3 ==> 'a' <= name[k] <= 'z'
  {
  }

  /** The names of the days of the week, and no others. */
  lemma DayNames(name: string)
    ensures DOW.names == map["sun" := 0, "mon" := 1, "tue" := 2, "wed" := 3, "thu" := 4, "fri" := 5, "sat" := 6]
    ensures name in DOW.names ==> |name| == 3 && forall k :: 0 <= k < 3 ==> 'a' <= name[k] <= 'z'
  {
  }

  lemma NamesLetters()
    ensures NamesAreLetters(MONTHS.names) && NamesAreLetters(DOW.names) && NamesAreLetters(map[])
  {
    hide MONTHS, DOW;
    forall name: string
      ensures name in MONTHS.names || name in DOW.names ==> |name| == 3 && forall k :: 0 <= k < 3 ==>
              'a' <= name[k] <= 'z'
    {
      MonthNames(name);
      DayNames(name);
    }
  }

  /** The bounds of the fields; only months and days of the week have names. */
  lemma FieldBounds()
    ensures SECONDS == Bounds(0, 59, map[]) && MINUTES == Bounds(0, 59, map[]) && HOURS == Bounds(0, 23, map[])
    ensures DOM == Bounds(1, 31, map[]) && MONTHS.min == 1 && MONTHS.max == 12 && DOW.min == 0 && DOW.max == 6
  {
  }

  /** A field of items joined by commas is read item by item; empty parts are dropped. */
  lemma FieldRoundTrip(texts: seq<string>, r: Bounds)
    requires texts != [] && forall k :: 0 <= k < |texts| ==> ',' !in texts[k]
    ensures FieldItems(Join(texts, ','), r) == ParseItems(NonEmpty(texts), r)
    ensures (forall k :: 0 <= k < |texts| ==> texts[k] != "") ==>
            FieldItems(Join(texts, ','), r) == ParseItems(texts, r)
  {
    hide ParseItems;
    SplitOfJoin(texts, ',');
    if forall k :: 0 <= k < |texts| ==> texts[k] != "" {
      NoneEmpty(texts);
    }
  }
}
