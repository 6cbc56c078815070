/** The SQL renderer of `internal/filter/render.go`: constant folding, parentheses, placeholders. */
module FilterRender {
  import opened Wrappers
  import opened FilterConditions
  import opened LikePatterns
  import opened SqlText

  datatype Dialect = SQLite | MySQL | Postgres

  datatype RenderError = UnknownField | UnsupportedKind | UnsupportedOperator | WrongType

  datatype Rendered = Rendered(sql: seq<Token>, trivial: bool, unsatisfiable: bool)

  datatype Statement = Statement(sql: seq<Token>, args: seq<Value>)

  const TRIVIAL := Rendered([], true, false)
  const UNSATISFIABLE := Rendered([Never], false, true)

  function Plain(sql: seq<Token>): Rendered { Rendered(sql, false, false) }

  function CombineAnd(left: Rendered, right: Rendered): Rendered {
    if left.unsatisfiable || right.unsatisfiable then UNSATISFIABLE
    else if left.trivial then right
    else if right.trivial then left
    else Plain([LParen] + left.sql + [AND] + right.sql + [RParen])
  }

  function CombineOr(left: Rendered, right: Rendered): Rendered {
    if left.trivial || right.trivial then TRIVIAL
    else if left.unsatisfiable then right
    else if right.unsatisfiable then left
    else Plain([LParen] + left.sql + [OR] + right.sql + [RParen])
  }

  function Negate(child: Rendered): Rendered {
    if child.trivial then UNSATISFIABLE
    else if child.unsatisfiable then TRIVIAL
    else Plain([NOT, LParen] + child.sql + [RParen])
  }

  /** The placeholder of the `n`th argument. */
  function PlaceholderFor(numbered: bool, n: nat): Placeholder { if numbered then Numbered(n) else Mark }

  function PlaceholdersFor(numbered: bool, start: nat, count: nat): (phs: seq<Placeholder>)
    ensures |phs| == count && forall i :: 0 <= i < count ==> phs[i] == PlaceholderFor(numbered, start + i + 1)
  {
    seq(count, i requires 0 <= i < count => PlaceholderFor(numbered, start + i + 1))
  }

  datatype Template =
    | TIsTrue(column: string) | TIsNull(column: string) | TIsNotNull(column: string)
    | TCmp(column: string, op: CompareOp) | TIn(column: string) | TLike(column: string)
    | TTest(leaf: Leaf, inline: seq<Value>)

  /** What a leaf turns into: a predicate over `count` placeholders and its arguments. */
  datatype LeafSql = LeafSql(template: Template, args: seq<Value>)

  /** The number of arguments that the template asks for. */
  predicate FitsTemplate(leaf: LeafSql) {
    && (leaf.template.TCmp? || leaf.template.TLike? ==> |leaf.args| == 1)
    && (leaf.template.TIsTrue? || leaf.template.TIsNull? || leaf.template.TIsNotNull? ==> leaf.args == [])
  }

  /** Fill a template with as many placeholders as it has arguments. */
  function Fill(t: Template, phs: seq<Placeholder>): Predicate
    requires t.TCmp? || t.TLike? ==> |phs| == 1
  {
    match t
    case TIsTrue(c) => IsTrue(c)
    case TIsNull(c) => IsNull(c)
    case TIsNotNull(c) => IsNotNull(c)
    case TCmp(c, op) => Cmp(c, op, phs[0])
    case TIn(c) => InList(c, phs)
    case TLike(c) => FoldedLike(c, phs[0])
    case TTest(leaf, inline) => Test(leaf, inline, phs)
  }

  /** A literal that the field's type accepts, as the argument that is bound for it. */
  function Convert(ty: FieldType, v: Value): Result<Value, RenderError> {
    match ty
    case StringType => if v.Text? then Ok(v) else Err(WrongType)
    case IntType => if v.Num? then Ok(v) else Err(WrongType)
    case TimestampType => if v.Num? then Ok(v) else Err(WrongType)
    case BoolType => Err(WrongType)
  }

  /** IN lists accept string and integer fields only. */
  function ConvertAll(ty: FieldType, values: seq<Value>): (r: Result<seq<Value>, RenderError>) {
    if values == [] then Ok([])
    else if ty.TimestampType? then Err(WrongType)
    else
      var v :- Convert(ty, values[0]);
      var rest :- ConvertAll(ty, values[1..]);
      Ok([v] + rest)
  }

  function RenderComparison(field: Field, name: string, op: CompareOp, literal: Option<Value>, dialect: Dialect)
    : Result<LeafSql, RenderError>
  {
    match field.kind
    case ScalarKind =>
      (match literal
       case None =>
         if op.Eq? then Ok(LeafSql(TIsNull(name), []))
         else if op.Neq? then Ok(LeafSql(TIsNotNull(name), []))
         else Err(UnsupportedOperator)
       case Some(v) =>
         var arg :- Convert(field.ty, v);
         Ok(LeafSql(TCmp(name, op), [arg])))
    case BoolColumnKind =>
      if literal.None? || !literal.value.Flag? then Err(WrongType)
      else Ok(LeafSql(TCmp(name, op), [if dialect.SQLite? then Stored(literal.value) else literal.value]))
    case JSONBoolKind =>
      // SQLite and MySQL write the value into the text, Postgres binds it.
      if literal.None? || !literal.value.Flag? then Err(WrongType)
      else if dialect.Postgres? then Ok(LeafSql(TTest(JsonCompare(name, op), []), [literal.value]))
      else if dialect.SQLite? && !op.Eq? && !op.Neq? then Err(UnsupportedOperator)
      else Ok(LeafSql(TTest(JsonCompare(name, op), [literal.value]), []))
    case _ => Err(UnsupportedKind)
  }

  function FieldOf(schema: Schema, name: string): Result<Field, RenderError> {
    if name in schema then Ok(schema[name]) else Err(UnknownField)
  }

  /** The leaf cases of `renderCondition`. */
  function RenderLeaf(schema: Schema, dialect: Dialect, c: Condition): (r: Result<LeafSql, RenderError>)
    requires IsLeaf(c)
    ensures r.Ok? ==> FitsTemplate(r.value)
  {
    match c
    case FieldPredicate(name) =>
      var field :- FieldOf(schema, name);
      if field.kind.BoolColumnKind? then Ok(LeafSql(TIsTrue(name), []))
      else if field.kind.JSONBoolKind? then Ok(LeafSql(TTest(JsonTrue(name), []), []))
      else Err(UnsupportedKind)
    case Comparison(name, op, literal) =>
      var field :- FieldOf(schema, name);
      RenderComparison(field, name, op, literal, dialect)
    case In(name, values) =>
      var field :- FieldOf(schema, name);
      if !field.kind.ScalarKind? then Err(UnsupportedKind) else
        var args :- ConvertAll(field.ty, values);
        Ok(LeafSql(TIn(name), args))
    case TextMatch(name, mode, value) =>
      var field :- FieldOf(schema, name);
      Ok(LeafSql(TLike(name), [Text(Pattern(mode, value))]))
    case LeafCondition(leaf, operands) => Ok(LeafSql(TTest(leaf, []), operands))
  }

  // The renderer's specification: a tree with constants folded away.

  datatype Folded = Always | Impossible | Tree(t: Sql)

  function FoldAnd(l: Folded, r: Folded): Folded {
    if l.Impossible? || r.Impossible? then Impossible
    else if l.Always? then r
    else if r.Always? then l
    else Tree(SAnd(l.t, r.t))
  }

  function FoldOr(l: Folded, r: Folded): Folded {
    if l.Always? || r.Always? then Always
    else if l.Impossible? then r
    else if r.Impossible? then l
    else Tree(SOr(l.t, r.t))
  }

  function FoldNot(e: Folded): Folded {
    match e
    case Always => Impossible
    case Impossible => Always
    case Tree(t) => Tree(SNot(t))
  }

  /** The folded tree and the arguments of a condition whose first argument is number `start + 1`. */
  function Simplify(schema: Schema, dialect: Dialect, numbered: bool, start: nat, c: Condition)
    : Result<(Folded, seq<Value>), RenderError>
    decreases c
  {
    if c.Logical? then
      var (l, leftArgs) :- Simplify(schema, dialect, numbered, start, c.left);
      var (r, rightArgs) :- Simplify(schema, dialect, numbered, start + |leftArgs|, c.right);
      Ok((if c.op.And? then FoldAnd(l, r) else FoldOr(l, r), leftArgs + rightArgs))
    else if c.Not? then
      var (e, args) :- Simplify(schema, dialect, numbered, start, c.expr);
      Ok((FoldNot(e), args))
    else if c.Constant? then
      Ok((if c.truth then Always else Impossible, []))
    else
      var leaf :- RenderLeaf(schema, dialect, c);
      Ok((Tree(SAtom(Fill(leaf.template, PlaceholdersFor(numbered, start, |leaf.args|)))), leaf.args))
  }

  function Write(f: Folded): Rendered {
    match f
    case Always => TRIVIAL
    case Impossible => UNSATISFIABLE
    case Tree(t) => Plain(Print(t))
  }

  /** The empty text for always, `1 = 0` for impossible, otherwise the printed tree. */
  function StatementText(f: Folded): seq<Token> {
    match f
    case Always => []
    case Impossible => [Never]
    case Tree(t) => Print(t)
  }

  function StatementSpec(schema: Schema, dialect: Dialect, offset: nat, c: Condition): Result<Statement, RenderError> {
    var (folded, args) :- Simplify(schema, dialect, dialect.Postgres?, offset, c);
    Ok(Statement(StatementText(folded), args))
  }

  class Renderer {
    const schema: Schema
    const dialect: Dialect
    const placeholderOffset: nat
    var placeholderCounter: nat
    var args: seq<Value>

    constructor (schema: Schema, dialect: Dialect, offset: nat)
      ensures this.schema == schema && this.dialect == dialect && placeholderOffset == offset
      ensures placeholderCounter == 0 && args == []
    {
      this.schema, this.dialect, placeholderOffset := schema, dialect, offset;
      placeholderCounter, args := 0, [];
    }

    /** The number of the last placeholder handed out. */
    ghost function Last(): nat
      reads this
    {
      placeholderOffset + placeholderCounter
    }

    method AddArg(value: Value) returns (ph: Placeholder)
      modifies this
      ensures args == old(args) + [value] && placeholderCounter == old(placeholderCounter) + 1
      ensures ph == PlaceholderFor(dialect.Postgres?, Last())
    {
      placeholderCounter := placeholderCounter + 1;
      args := args + [value];
      if dialect.Postgres? {
        return Numbered(placeholderOffset + placeholderCounter);
      }
      return Mark;
    }

    method RenderLeafCondition(c: Condition) returns (r: Result<Rendered, RenderError>)
      requires IsLeaf(c)
      modifies this
      ensures Outcome(c, old(Last()), old(placeholderCounter), old(args), r)
    {
      var leaf := RenderLeaf(schema, dialect, c);
      if leaf.Err? {
        return Err(leaf.error);
      }
      var phs: seq<Placeholder> := [];
      var values := leaf.value.args;
      for i := 0 to |values|
        invariant args == old(args) + values[..i] && placeholderCounter == old(placeholderCounter) + i
        invariant phs == PlaceholdersFor(dialect.Postgres?, old(Last()), i)
      {
        var ph := AddArg(values[i]);
        phs := phs + [ph];
      }
      assert values[..|values|] == values;
      return Ok(Plain([Atom(Fill(leaf.value.template, phs))]));
    }

    /** What a render method did: an error, or the text of the folded tree with its arguments appended. */
    ghost predicate Outcome(c: Condition, last: nat, counter: nat, before: seq<Value>, r: Result<Rendered, RenderError>)
      reads this
    {
      match Simplify(schema, dialect, dialect.Postgres?, last, c)
      case Err(e) => r == Err(e)
      case Ok((folded, added)) =>
        r == Ok(Write(folded)) && args == before + added && placeholderCounter == counter + |added|
    }

    /** `renderCondition`, with its logical, negation and constant cases. */
    method RenderCondition(c: Condition) returns (r: Result<Rendered, RenderError>)
      modifies this
      ensures Outcome(c, old(Last()), old(placeholderCounter), old(args), r)
      decreases c
    {
      if c.Logical? {
        var left := RenderCondition(c.left);
        if left.Err? {
          return left;
        }
        var right := RenderCondition(c.right);
        if right.Err? {
          return right;
        }
        r := Ok(if c.op.And? then CombineAnd(left.value, right.value) else CombineOr(left.value, right.value));
      } else if c.Not? {
        var child := RenderCondition(c.expr);
        if child.Err? {
          return child;
        }
        r := Ok(Negate(child.value));
      } else if c.Constant? {
        r := Ok(if c.truth then TRIVIAL else UNSATISFIABLE);
      } else {
        r := RenderLeafCondition(c);
      }
    }

    /** `Render`: the empty text stands for a filter that is always true. */
    method Render(c: Condition) returns (s: Result<Statement, RenderError>)
      requires placeholderCounter == 0 && args == []
      modifies this
      ensures s == StatementSpec(schema, dialect, placeholderOffset, c)
    {
      ghost var spec := Simplify(schema, dialect, dialect.Postgres?, placeholderOffset, c);
      var result := RenderCondition(c);
      if result.Err? {
        return Err(result.error);
      }
      assert args == spec.value.1;
      if result.value.unsatisfiable {
        return Ok(Statement([Never], args));
      } else if result.value.trivial {
        return Ok(Statement([], args));
      }
      return Ok(Statement(result.value.sql, args));
    }
  }
}
