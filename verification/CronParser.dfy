/** Field parsing of `internal/cron/parser.go`: a cron field becomes a 64-bit set. */
module CronParser {
  import opened Wrappers
  import opened BitSets
  import opened Text
  import opened SpecSchedules

  datatype Bounds = Bounds(min: nat, max: nat, names: map<string, nat>)

  const SECONDS := Bounds(0, 59, map[])
  const MINUTES := Bounds(0, 59, map[])
  const HOURS := Bounds(0, 23, map[])
  const DOM := Bounds(1, 31, map[])
  const MONTHS := Bounds(1, 12, map["jan" := 1, "feb" := 2, "mar" := 3, "apr" := 4, "may" := 5, "jun" := 6,
                                    "jul" := 7, "aug" := 8, "sep" := 9, "oct" := 10, "nov" := 11, "dec" := 12])
  const DOW := Bounds(0, 6, map["sun" := 0, "mon" := 1, "tue" := 2, "wed" := 3, "thu" := 4, "fri" := 5, "sat" := 6])

  datatype ParseError =
    | BadNumber
    | NegativeNumber
    | TooManyHyphens
    | TooManySlashes
    | BelowMinimum
    | AboveMaximum
    | StartAfterEnd
    | ZeroStep
    | WrongFieldCount

  /** One comma item: start, start + step, ... up to end; `star` asks for the star mark. */
  datatype Item = Item(start: nat, end: nat, step: nat, star: bool)

  function MustParseInt(expr: string): Result<nat, ParseError> {
    match Atoi(expr)
    case None => Err(BadNumber)
    case Some(n) => if n < 0 then Err(NegativeNumber) else Ok(n)
  }

  function ParseIntOrName(expr: string, names: map<string, nat>): Result<nat, ParseError> {
    if ToLower(expr) in names then Ok(names[ToLower(expr)]) else MustParseInt(expr)
  }

  predicate IsStar(low: string) { low == "*" || low == "?" }

  /** The low and high end of a range, and whether it is a star. */
  function ParseEnds(lowAndHigh: seq<string>, r: Bounds): Result<(nat, nat), ParseError>
    requires |lowAndHigh| > 0
  {
    if IsStar(lowAndHigh[0]) then Ok((r.min, r.max)) else
      var start :- ParseIntOrName(lowAndHigh[0], r.names);
      if |lowAndHigh| == 1 then Ok((start, start))
      else if |lowAndHigh| == 2 then
        var end :- ParseIntOrName(lowAndHigh[1], r.names);
        Ok((start, end))
      else Err(TooManyHyphens)
  }

  /** `getRange` up to the final bit set. */
  function ParseRange(expr: string, r: Bounds): (item: Result<Item, ParseError>)
    ensures item.Ok? ==> r.min <= item.value.start <= item.value.end <= r.max && 0 < item.value.step
  {
    var rangeAndStep := Split(expr, '/');
    var lowAndHigh := Split(rangeAndStep[0], '-');
    var ends :- ParseEnds(lowAndHigh, r);
    var star := IsStar(lowAndHigh[0]);
    if |rangeAndStep| > 2 then Err(TooManySlashes) else
      var step :- if |rangeAndStep| == 1 then Ok(1) else MustParseInt(rangeAndStep[1]);
      var (start, low) := ends;
      // "N/step" means "N-max/step".
      var end := if |rangeAndStep| == 2 && |lowAndHigh| == 1 then r.max else low;
      if start < r.min then Err(BelowMinimum)
      else if end > r.max then Err(AboveMaximum)
      else if start > end then Err(StartAfterEnd)
      else if step == 0 then Err(ZeroStep)
      else Ok(Item(start, end, step, star && (|rangeAndStep| == 1 || step <= 1)))
  }

  function ParseItems(parts: seq<string>, r: Bounds): (items: Result<seq<Item>, ParseError>) {
    if parts == [] then Ok([]) else
      var item :- ParseRange(parts[0], r);
      var rest :- ParseItems(parts[1..], r);
      Ok([item] + rest)
  }

  /** The comma items of a field, or the first error among them. */
  function FieldItems(field: string, r: Bounds): Result<seq<Item>, ParseError> {
    ParseItems(FieldsAt(field, ','), r)
  }

  /** `v` is one of start, start + step, start + 2 * step, ... */
  predicate Reaches(start: nat, step: nat, v: nat)
    requires 0 < step
    decreases v - start
  {
    v == start || (start < v && Reaches(start + step, step, v))
  }

  predicate Covers(item: Item, v: nat) { 0 < item.step && v <= item.end && Reaches(item.start, item.step, v) }

  predicate Covered(items: seq<Item>, v: nat) { exists i :: 0 <= i < |items| && Covers(items[i], v) }

  predicate Starred(items: seq<Item>) { exists i :: 0 <= i < |items| && items[i].star }

  /** A word stands for a list of items: its low bits are their union, its top bit is the star mark. */
  ghost predicate Denotes(word: bv64, items: seq<Item>) {
    && (forall v: nat :: v < STAR ==> (Bit(word, v) <==> Covered(items, v)))
    && (Bit(word, STAR) <==> Starred(items))
  }

  lemma MultipleAtLeast(m: nat, d: nat)
    requires 0 < d
    ensures m <= m * d
  {
  }

  lemma RemainderLess(a: nat, m: nat)
    requires 0 < m <= a
    ensures a % m == (a - m) % m
  {
    var q, r := (a - m) / m, (a - m) % m;
    assert a == m * (q + 1) + r;
    var d := q + 1 - a / m;
    assert m * d == a % m - r;
    if 0 < d { MultipleAtLeast(m, d); }
    if d < 0 { MultipleAtLeast(m, -d); }
  }

  /** The members of an arithmetic progression by remainder. */
  lemma {:induction false} ReachesByRemainder(start: nat, step: nat, v: nat)
    requires 0 < step
    ensures Reaches(start, step, v) <==> start <= v && (v - start) % step == 0
    decreases v - start
  {
    if start < v {
      ReachesByRemainder(start + step, step, v);
      if start + step <= v {
        RemainderLess(v - start, step);
      }
    }
  }

  lemma {:induction false} ReachesByOne(start: nat, v: nat)
    ensures Reaches(start, 1, v) <==> start <= v
    decreases v - start
  {
    if start < v {
      ReachesByOne(start + 1, v);
    }
  }

  /** `getBits`: the shift form for step 1 and the loop form give the same set. */
  method GetBits(min: nat, max: nat, step: nat) returns (bits: bv64)
    requires 0 < step && min <= max < 63
    ensures forall v: nat :: v < 64 ==> (Bit(bits, v) <==> v <= max && Reaches(min, step, v))
  {
    hide Bit;
    if step == 1 {
      bits := Window(Amount(min), Amount(max + 1));
      forall v: nat | v < 64
        ensures Bit(bits, v) <==> v <= max && Reaches(min, step, v)
      {
        BitOfShifts(min, max + 1, v);
        ReachesByOne(min, v);
      }
      return;
    }
    bits := 0;
    forall v: nat | v < 64 ensures !Bit(bits, v) { BitOfZero(v); }
    var i := min;
    while i <= max
      invariant forall v: nat :: v < 64 ==>
        ((Bit(bits, v) || (v <= max && Reaches(i, step, v))) <==> v <= max && Reaches(min, step, v))
    {
      ghost var before := bits;
      bits := bits | One(i);
      forall v: nat | v < 64
        ensures Bit(bits, v) <==> Bit(before, v) || v == i
      {
        BitOfOne(before, i, v);
      }
      i := i + step;
    }
  }

  /** The bits of a range together with its star mark. */
  function WithStar(low: bv64, star: bool): bv64 { if star then low | One(STAR) else low | 0 }

  lemma BitOfWithStar(low: bv64, star: bool, v: nat)
    requires v < 64
    ensures Bit(WithStar(low, star), v) <==> Bit(low, v) || (v == STAR && star)
  {
    hide Bit, One;
    BitOfOne(low, STAR, v);
    BitOfZero(v);
    BitOfOr(low, 0, v);
  }

  lemma Singleton(item: Item, v: nat)
    ensures Covered([item], v) <==> Covers(item, v)
    ensures Starred([item]) <==> item.star
  {
    hide Covers;
    assert [item][0] == item;
  }

  lemma BeyondEnd(item: Item)
    requires item.end < STAR
    ensures !Covers(item, STAR)
  {
  }

  lemma DenotesOne(low: bv64, item: Item)
    requires item.end < STAR
    requires forall v: nat :: v < 64 ==> (Bit(low, v) <==> Covers(item, v))
    ensures Denotes(WithStar(low, item.star), [item])
  {
    hide Bit, One, Covers, Covered, Starred, WithStar;
    forall v: nat | v < 64
      ensures Bit(WithStar(low, item.star), v) <==> Covers(item, v) || (v == STAR && item.star)
      ensures Covered([item], v) <==> Covers(item, v)
      ensures Starred([item]) <==> item.star
    {
      BitOfWithStar(low, item.star, v);
      Singleton(item, v);
    }
    BeyondEnd(item);
    BitOfWithStar(low, item.star, STAR);
    Singleton(item, 0);
  }

  /** `getRange` */
  method GetRange(expr: string, r: Bounds) returns (bits: Result<bv64, ParseError>)
    requires r.max < 63
    ensures match ParseRange(expr, r)
            case Err(e) => bits == Err(e)
            case Ok(item) => bits.Ok? && Denotes(bits.value, [item])
  {
    hide Bit, One, Denotes, Reaches, WithStar, ParseRange;
    var item := ParseRange(expr, r);
    if item.Err? {
      return Err(item.error);
    }
    var low := GetBits(item.value.start, item.value.end, item.value.step);
    DenotesOne(low, item.value);
    bits := Ok(WithStar(low, item.value.star));
  }

  lemma CoveredAppend(a: seq<Item>, b: seq<Item>, v: nat)
    ensures Covered(a + b, v) <==> Covered(a, v) || Covered(b, v)
    ensures Starred(a + b) <==> Starred(a) || Starred(b)
  {
    assert forall i :: 0 <= i < |a| ==> (a + b)[i] == a[i];
    assert forall i :: 0 <= i < |b| ==> (a + b)[|a| + i] == b[i];
  }

  lemma DenotesOr(v: bv64, w: bv64, a: seq<Item>, b: seq<Item>)
    requires Denotes(v, a) && Denotes(w, b)
    ensures Denotes(v | w, a + b)
  {
    hide Bit, Covered, Starred;
    forall k: nat | k < 64
      ensures Bit(v | w, k) <==> Bit(v, k) || Bit(w, k)
      ensures Covered(a + b, k) <==> Covered(a, k) || Covered(b, k)
      ensures Starred(a + b) <==> Starred(a) || Starred(b)
    {
      BitOfOr(v, w, k);
      CoveredAppend(a, b, k);
    }
    CoveredAppend(a, b, 0);
  }

  lemma {:induction false} ItemsPrefix(parts: seq<string>, n: nat, r: Bounds)
    requires n < |parts| && ParseItems(parts[..n], r).Ok?
    ensures match ParseRange(parts[n], r)
            case Err(e) => ParseItems(parts, r) == Err(e)
            case Ok(item) => ParseItems(parts[..n + 1], r) == Ok(ParseItems(parts[..n], r).value + [item])
  {
    hide ParseRange;
    if n == 0 {
      assert parts[..1] == [parts[0]];
      if ParseRange(parts[0], r).Ok? {
        var item := ParseRange(parts[0], r).value;
        assert ParseItems([parts[0]], r) == Ok([item] + []) && [] + [item] == [item] + [];
      }
    } else {
      assert parts[..n][1..] == parts[1..][..n - 1] && parts[..n + 1][1..] == parts[1..][..n];
      ItemsPrefix(parts[1..], n - 1, r);
      assert parts[..n + 1][0] == parts[..n][0] == parts[0];
      if ParseRange(parts[n], r).Ok? {
        var first, item := ParseRange(parts[0], r).value, ParseRange(parts[n], r).value;
        var middle := ParseItems(parts[1..][..n - 1], r).value;
        assert [first] + (middle + [item]) == ([first] + middle) + [item];
      }
    }
  }

  lemma NothingDenoted()
    ensures Denotes(0, [])
  {
  }

  /** `getField`: the word denotes the comma items of the field. */
  method GetField(field: string, r: Bounds) returns (bits: Result<bv64, ParseError>)
    requires r.max < 63
    ensures match FieldItems(field, r)
            case Err(e) => bits == Err(e)
            case Ok(items) => bits.Ok? && Denotes(bits.value, items)
  {
    hide Bit, ParseRange, Covered, Starred;
    var word: bv64 := 0;
    var ranges := FieldsAt(field, ',');
    assert Denotes(0, []) by { NothingDenoted(); }
    for n := 0 to |ranges|
      invariant ParseItems(ranges[..n], r).Ok? && Denotes(word, ParseItems(ranges[..n], r).value)
    {
      ItemsPrefix(ranges, n, r);
      var bit := GetRange(ranges[n], r);
      if bit.Err? {
        return Err(bit.error);
      }
      DenotesOr(word, bit.value, ParseItems(ranges[..n], r).value, [ParseRange(ranges[n], r).value]);
      word := word | bit.value;
    }
    assert ranges[..|ranges|] == ranges;
    return Ok(word);
  }

  /** Every field parses. */
  ghost predicate Readable(fields: seq<string>)
    requires |fields| == 6
  {
    && FieldItems(fields[0], SECONDS).Ok?
    && FieldItems(fields[1], MINUTES).Ok?
    && FieldItems(fields[2], HOURS).Ok?
    && FieldItems(fields[3], DOM).Ok?
    && FieldItems(fields[4], MONTHS).Ok?
    && FieldItems(fields[5], DOW).Ok?
  }

  /** The six words of a schedule denote the six fields. */
  ghost predicate Reads(s: SpecSchedule, fields: seq<string>)
    requires |fields| == 6
  {
    && Readable(fields)
    && Denotes(s.second, FieldItems(fields[0], SECONDS).value)
    && Denotes(s.minute, FieldItems(fields[1], MINUTES).value)
    && Denotes(s.hour, FieldItems(fields[2], HOURS).value)
    && Denotes(s.dom, FieldItems(fields[3], DOM).value)
    && Denotes(s.month, FieldItems(fields[4], MONTHS).value)
    && Denotes(s.dow, FieldItems(fields[5], DOW).value)
  }

  const SECOND_DEFAULT := "0"

  function ErrorOf(r: Result<seq<Item>, ParseError>): Option<ParseError> { if r.Err? then Some(r.error) else None }

  function First(a: Option<ParseError>, b: Option<ParseError>): Option<ParseError> { if a.Some? then a else b }

  /** The error of the first field that does not parse. */
  function FirstError(fields: seq<string>): (e: Option<ParseError>)
    requires |fields| == 6
  {
    First(ErrorOf(FieldItems(fields[0], SECONDS)),
    First(ErrorOf(FieldItems(fields[1], MINUTES)),
    First(ErrorOf(FieldItems(fields[2], HOURS)),
    First(ErrorOf(FieldItems(fields[3], DOM)),
    First(ErrorOf(FieldItems(fields[4], MONTHS)), ErrorOf(FieldItems(fields[5], DOW)))))))
  }

  /** `ParseStandard` on the blank-separated fields of a spec without descriptor or time zone:
    * five fields are required and the seconds field gets its default.
    */
  method ParseStandard(fields: seq<string>) returns (parsed: Result<SpecSchedule, ParseError>)
    ensures |fields| != 5 ==> parsed == Err(WrongFieldCount)
    ensures parsed.Ok? ==> |fields| == 5 && Reads(parsed.value, [SECOND_DEFAULT] + fields)
    ensures |fields| == 5 && parsed.Err? ==>
              !Readable([SECOND_DEFAULT] + fields) && FirstError([SECOND_DEFAULT] + fields) == Some(parsed.error)
  {
    hide FieldItems, Denotes, ParseRange;
    if |fields| != 5 {
      return Err(WrongFieldCount);
    }
    var expanded := [SECOND_DEFAULT] + fields;
    var second :- GetField(expanded[0], SECONDS);
    var minute :- GetField(expanded[1], MINUTES);
    var hour :- GetField(expanded[2], HOURS);
    var dayofmonth :- GetField(expanded[3], DOM);
    var month :- GetField(expanded[4], MONTHS);
    var dayofweek :- GetField(expanded[5], DOW);
    return Ok(SpecSchedule(second, minute, hour, dayofmonth, month, dayofweek));
  }
}
