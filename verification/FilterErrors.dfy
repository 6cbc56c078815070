/** Which conditions render, with which error the others are refused, and what is bound. */
module FilterErrors {
  import opened Wrappers
  import opened FilterConditions
  import opened LikePatterns
  import opened FilterRender

  /** A literal of the field's type; booleans are no scalars. */
  predicate HasType(ty: FieldType, v: Value) {
    (ty.StringType? && v.Text?) || ((ty.IntType? || ty.TimestampType?) && v.Num?)
  }

  predicate EqualityOp(op: CompareOp) { op == Eq || op == Neq }

  predicate IsBoolean(literal: Option<Value>) { literal.Some? && literal.value.Flag? }

  /** Why a comparison with a known field is refused. */
  function ComparisonFault(field: Field, op: CompareOp, literal: Option<Value>, dialect: Dialect): Option<RenderError> {
    if field.kind == ScalarKind && literal.None? then
      if EqualityOp(op) then None else Some(UnsupportedOperator)
    else if field.kind == ScalarKind then
      if HasType(field.ty, literal.value) then None else Some(WrongType)
    else if field.kind == BoolColumnKind then
      if IsBoolean(literal) then None else Some(WrongType)
    else if field.kind == JSONBoolKind then
      if !IsBoolean(literal) then Some(WrongType)
      else if dialect == SQLite && !EqualityOp(op) then Some(UnsupportedOperator)
      else None
    else Some(UnsupportedKind)
  }

  /** IN lists hold strings or integers. */
  predicate ListFits(ty: FieldType, values: seq<Value>) {
    forall i :: 0 <= i < |values| ==> !ty.TimestampType? && HasType(ty, values[i])
  }

  /** Why a leaf is refused. */
  function LeafFault(schema: Schema, dialect: Dialect, c: Condition): Option<RenderError>
    requires IsLeaf(c)
  {
    if c.LeafCondition? then None
    else if c.field !in schema then Some(UnknownField)
    else
      var field := schema[c.field];
      if c.TextMatch? then None
      else if c.FieldPredicate? then
        if field.kind == BoolColumnKind || field.kind == JSONBoolKind then None else Some(UnsupportedKind)
      else if c.Comparison? then ComparisonFault(field, c.cmp, c.literal, dialect)
      else if field.kind != ScalarKind then Some(UnsupportedKind)
      else if ListFits(field.ty, c.values) then None
      else Some(WrongType)
  }

  /** The fault of the first leaf, from left to right, that is refused; folding does not hide it. */
  function Fault(schema: Schema, dialect: Dialect, c: Condition): Option<RenderError> {
    match c
    case Logical(_, l, r) => if Fault(schema, dialect, l).Some? then Fault(schema, dialect, l)
        else Fault(schema, dialect, r)
    case Not(e) => Fault(schema, dialect, e)
    case Constant(_) => None
    case _ => LeafFault(schema, dialect, c)
  }

  /** What is bound for a leaf. */
  function LeafArgs(schema: Schema, dialect: Dialect, c: Condition): seq<Value>
    requires IsLeaf(c)
  {
    match c
    case FieldPredicate(_) => []
    case Comparison(name, _, literal) =>
      if literal.None? then []
      else if name in schema && schema[name].kind == BoolColumnKind && dialect == SQLite then
        [if literal.value == Flag(true) then Num(1) else Num(0)]
      else if name in schema && schema[name].kind == JSONBoolKind && dialect != Postgres then []
      else [literal.value]
    case In(_, values) => values
    case TextMatch(_, mode, value) => [Text(Pattern(mode, value))]
    case LeafCondition(_, operands) => operands
  }

  /** What is bound for a condition: the arguments of its leaves from left to right, folded away or not. */
  function Args(schema: Schema, dialect: Dialect, c: Condition): seq<Value> {
    match c
    case Logical(_, l, r) => Args(schema, dialect, l) + Args(schema, dialect, r)
    case Not(e) => Args(schema, dialect, e)
    case Constant(_) => []
    case _ => LeafArgs(schema, dialect, c)
  }

  lemma {:induction false} ConvertsList(ty: FieldType, values: seq<Value>)
    ensures ConvertAll(ty, values) == if ListFits(ty, values) then Ok(values) else Err(WrongType)
  {
    if values != [] {
      ConvertsList(ty, values[1..]);
      assert values == [values[0]] + values[1..];
      if ListFits(ty, values) {
        assert HasType(ty, values[0]);
        assert forall i :: 0 <= i < |values[1..]| ==> HasType(ty, values[1..][i]);
      }
    }
  }

  lemma LeafRenders(schema: Schema, dialect: Dialect, c: Condition)
    requires IsLeaf(c)
    ensures var fault := LeafFault(schema, dialect, c);
            if fault.Some? then RenderLeaf(schema, dialect, c) == Err(fault.value)
            else && RenderLeaf(schema, dialect, c).Ok?
                 && RenderLeaf(schema, dialect, c).value.args == LeafArgs(schema, dialect, c)
  {
    hide Pattern, ConvertAll, ListFits;
    if c.In? && c.field in schema {
      ConvertsList(schema[c.field].ty, c.values);
    }
  }

  lemma {:induction false} TreeRenders(schema: Schema, dialect: Dialect, numbered: bool, start: nat, c: Condition)
    ensures var fault := Fault(schema, dialect, c);
            var spec := Simplify(schema, dialect, numbered, start, c);
            if fault.Some? then spec == Err(fault.value)
            else spec.Ok? && spec.value.1 == Args(schema, dialect, c)
    decreases c
  {
    hide RenderLeaf, LeafFault, LeafArgs, Fill, PlaceholdersFor;
    match c
    case Logical(_, l, r) =>
      TreeRenders(schema, dialect, numbered, start, l);
      TreeRenders(schema, dialect, numbered, start + |Args(schema, dialect, l)|, r);
    case Not(e) => TreeRenders(schema, dialect, numbered, start, e);
    case Constant(_) =>
    case _ => LeafRenders(schema, dialect, c);
  }

  /** A condition renders if and only if every leaf names a known field, of a kind that supports it, with
    * literals of the field's type; otherwise the error is that of the first leaf that does not. What is bound
    * are the arguments of the leaves from left to right.
    */
  lemma RendersExactly(schema: Schema, dialect: Dialect, offset: nat, c: Condition)
    ensures var fault := Fault(schema, dialect, c);
            var spec := StatementSpec(schema, dialect, offset, c);
            if fault.Some? then spec == Err(fault.value)
            else spec.Ok? && spec.value.args == Args(schema, dialect, c)
  {
    TreeRenders(schema, dialect, dialect.Postgres?, offset, c);
    hide Simplify, Fault, Args;
  }
}
