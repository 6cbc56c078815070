/** Filter conditions (`internal/filter/ir.go`) and their three-valued meaning on a row. */
module FilterConditions {
  import opened Wrappers

  datatype Value = Text(text: string) | Num(num: int) | Flag(flag: bool)

  datatype FieldType = StringType | IntType | BoolType | TimestampType

  datatype FieldKind = ScalarKind | BoolColumnKind | JSONBoolKind | JSONListKind | VirtualAliasKind

  datatype Field = Field(kind: FieldKind, ty: FieldType)

  type Schema = map<string, Field>

  datatype CompareOp = Eq | Neq | Lt | Lte | Gt | Gte

  datatype MatchMode = Contains | Prefix | Suffix

  datatype LogicalOp = And | Or

  /** Predicates whose SQL is not modelled further: only their operands matter here. */
  datatype Leaf =
    | Element(field: string)
    | Size(field: string, op: CompareOp)
    | JsonTrue(field: string)
    | JsonCompare(field: string, op: CompareOp)
    | Other(id: nat)

  datatype Condition =
    | Logical(op: LogicalOp, left: Condition, right: Condition)
    | Not(expr: Condition)
    | FieldPredicate(field: string)
    | Comparison(field: string, cmp: CompareOp, literal: Option<Value>)  // no value is the null literal
    | In(field: string, values: seq<Value>)
    | TextMatch(field: string, mode: MatchMode, value: string)
    | LeafCondition(leaf: Leaf, operands: seq<Value>)
    | Constant(truth: bool)

  /** SQL truth values. */
  datatype Tri = True | False | Unknown

  function OfBool(b: bool): Tri { if b then True else False }

  function Not3(a: Tri): Tri {
    match a
    case True => False
    case False => True
    case Unknown => Unknown
  }

  function And3(a: Tri, b: Tri): Tri {
    if a == False || b == False then False else if a == True && b == True then True else Unknown
  }

  function Or3(a: Tri, b: Tri): Tri { Not3(And3(Not3(a), Not3(b))) }

  /** A row with the database's collation: a missing column is null. `fold` is the case fold that
    * text matching applies, `leaf` the truth value of the predicates that are not modelled.
    */
  datatype Row = Row(columns: map<string, Value>, less: (Value, Value) -> bool, fold: char -> char,
                     leaf: (Leaf, seq<Value>) -> Tri)

  predicate IsMeta(c: char) { c == '\\' || c == '%' || c == '_' }

  /** Folding neither changes nor produces a LIKE metacharacter. */
  ghost predicate PlainFold(fold: char -> char) {
    forall c :: IsMeta(fold(c)) || IsMeta(c) ==> fold(c) == c
  }

  function Fold(s: string, fold: char -> char): (folded: string)
    ensures |folded| == |s| && forall k :: 0 <= k < |s| ==> folded[k] == fold(s[k])
  {
    seq(|s|, k requires 0 <= k < |s| => fold(s[k]))
  }

  /** SQLite stores booleans as 0 and 1. */
  function Stored(v: Value): Value { if v.Flag? then Num(if v.flag then 1 else 0) else v }

  function Compare(a: Value, op: CompareOp, b: Value, row: Row): bool {
    match op
    case Eq => Stored(a) == Stored(b)
    case Neq => Stored(a) != Stored(b)
    case Lt => row.less(Stored(a), Stored(b))
    case Lte => !row.less(Stored(b), Stored(a))
    case Gt => row.less(Stored(b), Stored(a))
    case Gte => !row.less(Stored(a), Stored(b))
  }

  /** What a text match promises: containment, a prefix, or a suffix. */
  ghost predicate TextMatches(mode: MatchMode, value: string, s: string) {
    match mode
    case Contains => exists i :: 0 <= i <= |s| && value <= s[i..]
    case Prefix => value <= s
    case Suffix => |value| <= |s| && s[|s| - |value|..] == value
  }

  /** Booleans inside the JSON payload are read by predicates that are not modelled further. */
  predicate IsJsonBool(schema: Schema, field: string) { field in schema && schema[field].kind.JSONBoolKind? }

  predicate IsLeaf(c: Condition) { !c.Logical? && !c.Not? && !c.Constant? }

  ghost function LeafMeaning(c: Condition, schema: Schema, row: Row): Tri
    requires IsLeaf(c)
  {
    match c
    case FieldPredicate(f) =>
      if IsJsonBool(schema, f) then row.leaf(JsonTrue(f), [])
      else OfBool(f in row.columns && Stored(row.columns[f]) == Num(1))
    case Comparison(f, op, Some(v)) =>
      if IsJsonBool(schema, f) then row.leaf(JsonCompare(f, op), [v])
      else if f !in row.columns then Unknown
      else OfBool(Compare(row.columns[f], op, v, row))
    case Comparison(f, Eq, None) => OfBool(f !in row.columns)
    case Comparison(f, _, None) => OfBool(f in row.columns)
    case In(f, values) =>
      if values == [] then False
      else if f !in row.columns then Unknown
      else OfBool(exists i :: 0 <= i < |values| && Stored(row.columns[f]) == Stored(values[i]))
    case TextMatch(f, mode, value) =>
      if f !in row.columns || !row.columns[f].Text? then Unknown
      else OfBool(TextMatches(mode, Fold(value, row.fold), Fold(row.columns[f].text, row.fold)))
    case LeafCondition(leaf, operands) => row.leaf(leaf, operands)
  }

  /** The truth value of a filter on a row, in SQL's three-valued logic. */
  ghost function Meaning(c: Condition, schema: Schema, row: Row): Tri {
    match c
    case Logical(And, l, r) => And3(Meaning(l, schema, row), Meaning(r, schema, row))
    case Logical(Or, l, r) => Or3(Meaning(l, schema, row), Meaning(r, schema, row))
    case Not(e) => Not3(Meaning(e, schema, row))
    case Constant(b) => OfBool(b)
    case _ => LeafMeaning(c, schema, row)
  }

  // The laws of the meaning, apart from its definition.

  /** False, unknown and true as 0, 1 and 2. */
  function Rank(a: Tri): nat { if a == False then 0 else if a == Unknown then 1 else 2 }

  /** AND is the minimum, OR the maximum, and NOT the reversal of the three truth values. */
  lemma KleeneLogic(a: Tri, b: Tri)
    ensures Rank(And3(a, b)) == if Rank(a) < Rank(b) then Rank(a) else Rank(b)
    ensures Rank(Or3(a, b)) == if Rank(a) < Rank(b) then Rank(b) else Rank(a)
    ensures Rank(Not3(a)) == 2 - Rank(a)
    ensures OfBool(true) == True && OfBool(false) == False
  {
  }

  /** On numbers in their usual order every comparison is the usual one. */
  lemma NumbersCompare(a: int, b: int, row: Row)
    requires forall x, y :: row.less(Num(x), Num(y)) <==> x < y
    ensures Compare(Num(a), Eq, Num(b), row) <==> a == b
    ensures Compare(Num(a), Neq, Num(b), row) <==> a != b
    ensures Compare(Num(a), Lt, Num(b), row) <==> a < b
    ensures Compare(Num(a), Lte, Num(b), row) <==> a <= b
    ensures Compare(Num(a), Gt, Num(b), row) <==> a > b
    ensures Compare(Num(a), Gte, Num(b), row) <==> a >= b
  {
  }

  /** Texts are equal or not; a boolean equals the number 1 or 0 that SQLite stores for it. */
  lemma ValuesCompare(a: string, b: string, p: bool, q: bool, row: Row)
    ensures Compare(Text(a), Eq, Text(b), row) <==> a == b
    ensures Compare(Text(a), Neq, Text(b), row) <==> a != b
    ensures Compare(Flag(p), Eq, Flag(q), row) <==> p == q
    ensures Compare(Num(1), Eq, Flag(q), row) <==> q
    ensures Compare(Num(0), Eq, Flag(q), row) <==> !q
  {
  }

  /** A boolean column is its own filter, and equals true or false accordingly; a missing one is neither. */
  lemma BooleanColumn(schema: Schema, field: string, flag: bool, row: Row)
    requires field in schema && schema[field].kind.BoolColumnKind?
    ensures field in row.columns && row.columns[field] == Flag(flag) ==>
              && Meaning(FieldPredicate(field), schema, row) == OfBool(flag)
              && Meaning(Comparison(field, Eq, Some(Flag(true))), schema, row) == OfBool(flag)
              && Meaning(Comparison(field, Neq, Some(Flag(true))), schema, row) == OfBool(!flag)
    ensures field !in row.columns ==>
              && Meaning(FieldPredicate(field), schema, row) == False
              && Meaning(Comparison(field, Eq, Some(Flag(flag))), schema, row) == Unknown
  {
  }

  /** A missing column is null, and compares as unknown with every value. */
  lemma NullColumn(schema: Schema, field: string, op: CompareOp, v: Value, values: seq<Value>, row: Row)
    requires !IsJsonBool(schema, field)
    ensures Meaning(Comparison(field, Eq, None), schema, row) == OfBool(field !in row.columns)
    ensures Meaning(Comparison(field, Neq, None), schema, row) == OfBool(field in row.columns)
    ensures field !in row.columns ==> Meaning(Comparison(field, op, Some(v)), schema, row) == Unknown
    ensures field !in row.columns && values != [] ==> Meaning(In(field, values), schema, row) == Unknown
  {
  }

  /** `x IN (v, ...)` is `x = v OR ...`. */
  lemma {:induction false} InMeans(schema: Schema, field: string, values: seq<Value>, row: Row)
    requires !IsJsonBool(schema, field)
    ensures Meaning(In(field, []), schema, row) == False
    ensures values != [] ==>
              Meaning(In(field, values), schema, row)
              == Or3(Meaning(Comparison(field, Eq, Some(values[0])), schema, row),
                  Meaning(In(field, values[1..]), schema, row))
  {
    if values != [] {
      assert values == [values[0]] + values[1..];
    }
  }
}
