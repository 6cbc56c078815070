/** Rendered text means what the condition means: three-valued logic, argument binding, both
  * placeholder styles, and filters appended to a larger statement.
  */
module FilterMeaning {
  import opened Wrappers
  import opened FilterConditions
  import opened LikePatterns
  import opened SqlText
  import opened FilterRender

  // Evaluating SQL text against a row and a list of bound arguments.

  /** `$k` is bound to the `k`th argument; a `?` has no number of its own. */
  function Bound(ph: Placeholder, args: seq<Value>): Option<Value> {
    if ph.Numbered? && 1 <= ph.k <= |args| then Some(args[ph.k - 1]) else None
  }

  predicate AllBound(phs: seq<Placeholder>, args: seq<Value>) {
    forall i :: 0 <= i < |phs| ==> Bound(phs[i], args).Some?
  }

  function BoundValues(phs: seq<Placeholder>, args: seq<Value>): (values: seq<Value>)
    requires AllBound(phs, args)
    ensures |values| == |phs| && forall i :: 0 <= i < |phs| ==> values[i] == Bound(phs[i], args).value
  {
    seq(|phs|, i requires 0 <= i < |phs| => Bound(phs[i], args).value)
  }

  ghost function EvalPredicate(p: Predicate, row: Row, args: seq<Value>): Tri {
    match p
    case IsTrue(c) => OfBool(c in row.columns && Stored(row.columns[c]) == Num(1))
    case IsNull(c) => OfBool(c !in row.columns)
    case IsNotNull(c) => OfBool(c in row.columns)
    case Cmp(c, op, ph) =>
      if c !in row.columns || Bound(ph, args).None? then Unknown
      else OfBool(Compare(row.columns[c], op, Bound(ph, args).value, row))
    case InList(c, phs) =>
      if phs == [] then False
      else if c !in row.columns || !AllBound(phs, args) then Unknown
      else OfBool(exists i :: 0 <= i < |phs| && Stored(row.columns[c]) == Stored(BoundValues(phs, args)[i]))
    case FoldedLike(c, ph) =>
      (match Bound(ph, args)
       case Some(Text(p)) =>
         if c !in row.columns || !row.columns[c].Text? then Unknown
         else OfBool(Like(Fold(p, row.fold), Fold(row.columns[c].text, row.fold)))
       case _ => Unknown)
    case Test(leaf, inline, phs) =>
      if AllBound(phs, args) then row.leaf(leaf, inline + BoundValues(phs, args)) else Unknown
  }

  ghost function EvalSql(t: Sql, row: Row, args: seq<Value>): Tri {
    match t
    case SAtom(p) => EvalPredicate(p, row, args)
    case SNever => False
    case SNot(e) => Not3(EvalSql(e, row, args))
    case SAnd(l, r) => And3(EvalSql(l, row, args), EvalSql(r, row, args))
    case SOr(l, r) => Or3(EvalSql(l, row, args), EvalSql(r, row, args))
  }

  /** No empty IN list, which PostgreSQL and MySQL do not read. */
  predicate NoEmptyIn(t: Sql) {
    match t
    case SAtom(InList(_, phs)) => phs != []
    case SAtom(_) => true
    case SNever => true
    case SNot(e) => NoEmptyIn(e)
    case SAnd(l, r) => NoEmptyIn(l) && NoEmptyIn(r)
    case SOr(l, r) => NoEmptyIn(l) && NoEmptyIn(r)
  }

  predicate Readable(dialect: Dialect, t: Sql) { dialect.SQLite? || NoEmptyIn(t) }

  /** The truth value of SQL text: none if the database does not read it; the empty text is no restriction. */
  ghost function EvalText(dialect: Dialect, text: seq<Token>, row: Row, args: seq<Value>): Option<Tri> {
    if text == [] then Some(True)
    else match Parse(text)
      case Some(t) => if Readable(dialect, t) then Some(EvalSql(t, row, args)) else None
      case None => None
  }

  ghost function EvalFolded(f: Folded, row: Row, args: seq<Value>): Tri {
    match f
    case Always => True
    case Impossible => False
    case Tree(t) => EvalSql(t, row, args)
  }

  predicate FoldedReadable(dialect: Dialect, f: Folded) { f.Tree? ==> Readable(dialect, f.t) }

  lemma EvalWritten(dialect: Dialect, f: Folded, row: Row, args: seq<Value>)
    ensures EvalText(dialect, StatementText(f), row, args)
         == if FoldedReadable(dialect, f) then Some(EvalFolded(f, row, args)) else None
  {
    if f.Tree? {
      ParsePrint(f.t);
    } else if f.Impossible? {
      ParsePrint(SNever);
    }
  }

  // Which conditions give text that the database reads.

  /** The constant that a condition folds to, if any. */
  function Constantly(c: Condition): Option<bool> {
    match c
    case Logical(op, l, r) =>
      var absorbing := op.Or?;
      if Constantly(l) == Some(absorbing) || Constantly(r) == Some(absorbing) then Some(absorbing)
      else if Constantly(l).Some? then Constantly(r)
      else if Constantly(r).Some? then Constantly(l)
      else None
    case Not(e) => if Constantly(e).Some? then Some(!Constantly(e).value) else None
    case Constant(b) => Some(b)
    case _ => None
  }

  function ConstantOf(f: Folded): Option<bool> {
    match f
    case Always => Some(true)
    case Impossible => Some(false)
    case Tree(_) => None
  }

  /** Some operand of the operation folds it to a constant. */
  predicate Absorbed(op: LogicalOp, l: Condition, r: Condition) {
    Constantly(l) == Some(op.Or?) || Constantly(r) == Some(op.Or?)
  }

  /** An empty IN list is left in the text of the condition. */
  predicate EmptyInSurvives(c: Condition) {
    match c
    case Logical(op, l, r) => !Absorbed(op, l, r) && (EmptyInSurvives(l) || EmptyInSurvives(r))
    case Not(e) => EmptyInSurvives(e)
    case In(_, values) => values == []
    case _ => false
  }

  /** The database reads the text of the condition. */
  predicate Accepts(dialect: Dialect, c: Condition) { dialect.SQLite? || !EmptyInSurvives(c) }

  lemma {:induction false} ConstantExact(schema: Schema, dialect: Dialect, numbered: bool, start: nat, c: Condition)
    requires Simplify(schema, dialect, numbered, start, c).Ok?
    ensures ConstantOf(Simplify(schema, dialect, numbered, start, c).value.0) == Constantly(c)
    decreases c
  {
    hide RenderLeaf, Fill, PlaceholdersFor;
    if c.Logical? {
      ConstantExact(schema, dialect, numbered, start, c.left);
      var n := |Simplify(schema, dialect, numbered, start, c.left).value.1|;
      ConstantExact(schema, dialect, numbered, start + n, c.right);
    } else if c.Not? {
      ConstantExact(schema, dialect, numbered, start, c.expr);
    }
  }

  lemma FoldReadable(op: LogicalOp, l: Folded, r: Folded)
    ensures var f := if op.And? then FoldAnd(l, r) else FoldOr(l, r);
            var absorbed := ConstantOf(l) == Some(op.Or?) || ConstantOf(r) == Some(op.Or?);
            FoldedReadable(Postgres, f) <==> absorbed || (FoldedReadable(Postgres, l) && FoldedReadable(Postgres, r))
    ensures FoldedReadable(Postgres, FoldNot(l)) <==> FoldedReadable(Postgres, l)
  {
  }

  lemma {:induction false} ConvertAllKeeps(ty: FieldType, values: seq<Value>)
    ensures ConvertAll(ty, values).Ok? ==> ConvertAll(ty, values).value == values
  {
    if values != [] {
      ConvertAllKeeps(ty, values[1..]);
    }
  }

  lemma LeafReadable(schema: Schema, dialect: Dialect, numbered: bool, start: nat, c: Condition)
    requires IsLeaf(c) && RenderLeaf(schema, dialect, c).Ok?
    ensures var leaf := RenderLeaf(schema, dialect, c).value;
            var phs := PlaceholdersFor(numbered, start, |leaf.args|);
            NoEmptyIn(SAtom(Fill(leaf.template, phs))) <==> !EmptyInSurvives(c)
  {
    hide ConvertAll, Pattern;
    if c.In? {
      ConvertAllKeeps(schema[c.field].ty, c.values);
    }
  }

  lemma {:induction false} EmptyInExact(schema: Schema, dialect: Dialect, numbered: bool, start: nat, c: Condition)
    requires Simplify(schema, dialect, numbered, start, c).Ok?
    ensures FoldedReadable(Postgres, Simplify(schema, dialect, numbered, start, c).value.0) <==> !EmptyInSurvives(c)
    decreases c
  {
    hide RenderLeaf, Fill, PlaceholdersFor, FoldAnd, FoldOr, FoldNot, ConstantOf, Constantly;
    if c.Logical? {
      var (l, la) := Simplify(schema, dialect, numbered, start, c.left).value;
      var (r, ra) := Simplify(schema, dialect, numbered, start + |la|, c.right).value;
      EmptyInExact(schema, dialect, numbered, start, c.left);
      EmptyInExact(schema, dialect, numbered, start + |la|, c.right);
      ConstantExact(schema, dialect, numbered, start, c.left);
      ConstantExact(schema, dialect, numbered, start + |la|, c.right);
      hide FoldedReadable;
      FoldReadable(c.op, l, r);
    } else if c.Not? {
      EmptyInExact(schema, dialect, numbered, start, c.expr);
      var e := Simplify(schema, dialect, numbered, start, c.expr).value.0;
      hide FoldedReadable;
      FoldReadable(And, e, e);
    } else if !c.Constant? {
      LeafReadable(schema, dialect, numbered, start, c);
    }
  }

  /** The database reads the folded tree exactly when no empty IN list is left, or it is SQLite. */
  lemma ReadableExact(schema: Schema, dialect: Dialect, numbered: bool, start: nat, c: Condition, database: Dialect)
    requires Simplify(schema, dialect, numbered, start, c).Ok?
    ensures FoldedReadable(database, Simplify(schema, dialect, numbered, start, c).value.0) <==> Accepts(database, c)
  {
    EmptyInExact(schema, dialect, numbered, start, c);
    hide Simplify, EmptyInSurvives;
  }

  // Numbered placeholders.

  /** The arguments of a filter sit in `args` from position `start` on. */
  ghost predicate Holds(args: seq<Value>, start: nat, own: seq<Value>) {
    start + |own| <= |args| && args[start..start + |own|] == own
  }

  lemma BoundRange(start: nat, own: seq<Value>, args: seq<Value>)
    requires Holds(args, start, own)
    ensures var phs := PlaceholdersFor(true, start, |own|);
            AllBound(phs, args) && BoundValues(phs, args) == own
  {
  }

  /** A leaf's text over bound arguments has the leaf's meaning. */
  ghost predicate LeafAgrees(schema: Schema, c: Condition, leaf: LeafSql, phs: seq<Placeholder>, row: Row,
                             args: seq<Value>)
    requires IsLeaf(c) && |phs| == |leaf.args| && FitsTemplate(leaf)
  {
    EvalPredicate(Fill(leaf.template, phs), row, args) == LeafMeaning(c, schema, row)
  }

  lemma TextLeafAgrees(schema: Schema, dialect: Dialect, c: Condition, phs: seq<Placeholder>, row: Row,
                       args: seq<Value>)
    requires c.TextMatch? && PlainFold(row.fold)
    requires RenderLeaf(schema, dialect, c).Ok?
    requires var leaf := RenderLeaf(schema, dialect, c).value;
             |phs| == |leaf.args| && AllBound(phs, args) && BoundValues(phs, args) == leaf.args
    ensures LeafAgrees(schema, c, RenderLeaf(schema, dialect, c).value, phs, row, args)
  {
    hide Like, Pattern, TextMatches, Fold;
    assert Bound(phs[0], args) == Some(Text(Pattern(c.mode, c.value)));
    if c.field in row.columns && row.columns[c.field].Text? {
      FoldedPatternExact(c.mode, c.value, row.columns[c.field].text, row.fold);
    }
  }

  lemma InLeafAgrees(schema: Schema, dialect: Dialect, c: Condition, phs: seq<Placeholder>, row: Row, args: seq<Value>)
    requires c.In? && RenderLeaf(schema, dialect, c).Ok?
    requires var leaf := RenderLeaf(schema, dialect, c).value;
             |phs| == |leaf.args| && AllBound(phs, args) && BoundValues(phs, args) == leaf.args
    ensures LeafAgrees(schema, c, RenderLeaf(schema, dialect, c).value, phs, row, args)
  {
    ConvertAllKeeps(schema[c.field].ty, c.values);
    hide ConvertAll;
  }

  lemma OtherLeafAgrees(schema: Schema, dialect: Dialect, c: Condition, phs: seq<Placeholder>, row: Row,
                        args: seq<Value>)
    requires c.FieldPredicate? || c.LeafCondition? || c.Comparison?
    requires RenderLeaf(schema, dialect, c).Ok?
    requires var leaf := RenderLeaf(schema, dialect, c).value;
             |phs| == |leaf.args| && AllBound(phs, args) && BoundValues(phs, args) == leaf.args
    ensures LeafAgrees(schema, c, RenderLeaf(schema, dialect, c).value, phs, row, args)
  {
    var leaf := RenderLeaf(schema, dialect, c).value;
    if c.LeafCondition? {
      assert [] + c.operands == c.operands;
    } else if leaf.template.TTest? {
      assert leaf.template.inline + leaf.args == if c.FieldPredicate? then [] else [c.literal.value];
    } else if leaf.template.TCmp? {
      assert Bound(phs[0], args) == Some(leaf.args[0]);
    }
  }

  lemma LeafMeans(schema: Schema, dialect: Dialect, start: nat, c: Condition, row: Row, args: seq<Value>)
    requires IsLeaf(c) && PlainFold(row.fold)
    requires RenderLeaf(schema, dialect, c).Ok? && Holds(args, start, RenderLeaf(schema, dialect, c).value.args)
    ensures var leaf := RenderLeaf(schema, dialect, c).value;
            LeafAgrees(schema, c, leaf, PlaceholdersFor(true, start, |leaf.args|), row, args)
  {
    var leaf := RenderLeaf(schema, dialect, c).value;
    var phs := PlaceholdersFor(true, start, |leaf.args|);
    BoundRange(start, leaf.args, args);
    hide RenderLeaf, LeafAgrees, AllBound, PlainFold, Holds;
    if c.TextMatch? {
      TextLeafAgrees(schema, dialect, c, phs, row, args);
    } else if c.In? {
      InLeafAgrees(schema, dialect, c, phs, row, args);
    } else {
      OtherLeafAgrees(schema, dialect, c, phs, row, args);
    }
  }

  lemma FoldMeans(l: Folded, r: Folded, row: Row, args: seq<Value>)
    ensures EvalFolded(FoldAnd(l, r), row, args) == And3(EvalFolded(l, row, args), EvalFolded(r, row, args))
    ensures EvalFolded(FoldOr(l, r), row, args) == Or3(EvalFolded(l, row, args), EvalFolded(r, row, args))
    ensures EvalFolded(FoldNot(l), row, args) == Not3(EvalFolded(l, row, args))
  {
  }

  lemma ConstantMeans(truth: bool, row: Row, args: seq<Value>)
    ensures EvalFolded(if truth then Always else Impossible, row, args) == OfBool(truth)
  {
  }

  lemma AtomMeans(f: Folded, row: Row, args: seq<Value>)
    requires f.Tree? && f.t.SAtom?
    ensures EvalFolded(f, row, args) == EvalPredicate(f.t.p, row, args)
  {
  }

  /** The folded tree, evaluated with the arguments in place, has the meaning of the condition. */
  lemma {:induction false} SimplifyMeans(schema: Schema, dialect: Dialect, start: nat, c: Condition, row: Row,
                                         args: seq<Value>)
    requires PlainFold(row.fold)
    requires Simplify(schema, dialect, true, start, c).Ok?
    requires Holds(args, start, Simplify(schema, dialect, true, start, c).value.1)
    ensures EvalFolded(Simplify(schema, dialect, true, start, c).value.0, row, args) == Meaning(c, schema, row)
    decreases c
  {
    hide EvalFolded, FoldAnd, FoldOr, FoldNot, RenderLeaf, EvalPredicate, LeafMeaning;
    if c.Logical? {
      var (l, la) := Simplify(schema, dialect, true, start, c.left).value;
      var (r, ra) := Simplify(schema, dialect, true, start + |la|, c.right).value;
      var own := la + ra;
      assert args[start..start + |own|][..|la|] == la && args[start..start + |own|][|la|..] == ra;
      SimplifyMeans(schema, dialect, start, c.left, row, args);
      SimplifyMeans(schema, dialect, start + |la|, c.right, row, args);
      FoldMeans(l, r, row, args);
    } else if c.Not? {
      SimplifyMeans(schema, dialect, start, c.expr, row, args);
      var e := Simplify(schema, dialect, true, start, c.expr).value.0;
      FoldMeans(e, e, row, args);
    } else if c.Constant? {
      ConstantMeans(c.truth, row, args);
    } else {
      LeafMeans(schema, dialect, start, c, row, args);
      AtomMeans(Simplify(schema, dialect, true, start, c).value.0, row, args);
    }
  }

  /** A statement with numbered placeholders, re-read as SQL and evaluated with `$k` bound to the
    * `k`th argument of any list that holds its arguments after the offset: the database reads it if and
    * only if no empty IN list is left, and then it has the meaning of the condition on every row.
    */
  lemma NumberedStatementMeans(schema: Schema, offset: nat, c: Condition, s: Statement, row: Row, args: seq<Value>)
    requires PlainFold(row.fold)
    requires StatementSpec(schema, Postgres, offset, c) == Ok(s) && Holds(args, offset, s.args)
    ensures EvalText(Postgres, s.sql, row, args) == if EmptyInSurvives(c) then None else Some(Meaning(c, schema, row))
  {
    var f := Simplify(schema, Postgres, true, offset, c).value.0;
    EvalWritten(Postgres, f, row, args);
    ReadableExact(schema, Postgres, true, offset, c, Postgres);
    SimplifyMeans(schema, Postgres, offset, c, row, args);
  }

  /** `field in []` is rendered, but PostgreSQL and MySQL do not read the text. */
  lemma EmptyInUnreadable(schema: Schema, dialect: Dialect, field: string, offset: nat, row: Row, args: seq<Value>)
    requires !dialect.SQLite? && field in schema && schema[field].kind.ScalarKind?
    ensures StatementSpec(schema, dialect, offset, In(field, [])) == Ok(Statement([Atom(InList(field, []))], []))
    ensures EvalText(dialect, [Atom(InList(field, []))], row, args).None?
    ensures Meaning(In(field, []), schema, row) == False
  {
    assert PlaceholdersFor(dialect.Postgres?, offset, 0) == [];
    assert ConvertAll(schema[field].ty, []) == Ok([]);
    ParsePrint(SAtom(InList(field, [])));
  }
}
