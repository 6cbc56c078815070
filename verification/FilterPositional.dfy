/** One `?` statement with a driver that ignores a surplus of arguments. */
module FilterPositional {
  import opened Wrappers
  import opened FilterConditions
  import opened LikePatterns
  import opened SqlText
  import opened FilterRender
  import opened FilterMeaning
  import opened FilterPlaceholders

  /** Executing `?` text when the marks are bound from left to right and a surplus is ignored. */
  ghost function EvalInOrder(dialect: Dialect, text: seq<Token>, row: Row, args: seq<Value>): Option<Tri> {
    EvalText(dialect, Renumber(text, 0), row, args)
  }

  /** The text of the condition has no mark. */
  predicate NoMarks(schema: Schema, dialect: Dialect, c: Condition) {
    match c
    case Logical(op, l, r) => Absorbed(op, l, r) || (NoMarks(schema, dialect, l) && NoMarks(schema, dialect, r))
    case Not(e) => NoMarks(schema, dialect, e)
    case Constant(_) => true
    case _ => RenderLeaf(schema, dialect, c).Ok? ==> RenderLeaf(schema, dialect, c).value.args == []
  }

  /** No mark stands after a place where an argument was discarded. */
  predicate Aligned(schema: Schema, dialect: Dialect, c: Condition) {
    match c
    case Logical(op, l, r) =>
      Absorbed(op, l, r)
      || (Aligned(schema, dialect, l) && Aligned(schema, dialect, r)
          && (KeepsArgs(schema, dialect, l) || NoMarks(schema, dialect, r)))
    case Not(e) => Aligned(schema, dialect, e)
    case _ => true
  }

  lemma {:induction false} MarksCounted(schema: Schema, dialect: Dialect, numbered: bool, start: nat, c: Condition)
    requires Simplify(schema, dialect, numbered, start, c).Ok?
    ensures FoldedCount(Simplify(schema, dialect, numbered, start, c).value.0) == 0 <==> NoMarks(schema, dialect, c)
    decreases c
  {
    hide RenderLeaf, PlaceholdersOf, PlaceholdersFor, Fill;
    if c.Logical? {
      hide FoldAnd, FoldOr, FoldedCount, ConstantOf, Constantly;
      var (l, la) := Simplify(schema, dialect, numbered, start, c.left).value;
      var (r, ra) := Simplify(schema, dialect, numbered, start + |la|, c.right).value;
      MarksCounted(schema, dialect, numbered, start, c.left);
      MarksCounted(schema, dialect, numbered, start + |la|, c.right);
      CountExact(schema, dialect, numbered, start, c.left);
      CountExact(schema, dialect, numbered, start + |la|, c.right);
      CountOp(c.op, l, r);
    } else if c.Not? {
      MarksCounted(schema, dialect, numbered, start, c.expr);
    } else if !c.Constant? {
      var leaf := RenderLeaf(schema, dialect, c).value;
      LeafCount(leaf.template, PlaceholdersFor(numbered, start, |leaf.args|));
    }
  }

  lemma {:induction false} NoMarksAligned(schema: Schema, dialect: Dialect, c: Condition)
    requires NoMarks(schema, dialect, c)
    ensures Aligned(schema, dialect, c)
  {
    if c.Logical? {
      if !Absorbed(c.op, c.left, c.right) {
        NoMarksAligned(schema, dialect, c.left);
        NoMarksAligned(schema, dialect, c.right);
      }
    } else if c.Not? {
      NoMarksAligned(schema, dialect, c.expr);
    }
  }

  lemma {:induction false} RelabelNothing(t: Sql, a: nat, b: nat)
    requires TreeCount(t) == 0
    ensures Relabel(t, a) == Relabel(t, b)
  {
    match t
    case SAtom(p) => assert PlaceholdersFor(true, a, 0) == PlaceholdersFor(true, b, 0);
    case SNever =>
    case SNot(e) => RelabelNothing(e, a, b);
    case SAnd(l, r) => RelabelNothing(l, a, b); RelabelNothing(r, a, b);
    case SOr(l, r) => RelabelNothing(l, a, b); RelabelNothing(r, a, b);
  }

  lemma RelabelAtom(p: Predicate, start: nat)
    ensures PlaceholdersOf(Renamed(p, PlaceholdersFor(true, start, |PlaceholdersOf(p)|)))
         == PlaceholdersFor(true, start, |PlaceholdersOf(p)|)
  {
  }

  /** The first mark gets the number `start + 1`. */
  lemma {:induction false} RelabelFirst(t: Sql, start: nat, lo: nat, hi: nat)
    requires TreeCount(t) > 0 && start < lo
    ensures !WithinNumbers(Relabel(t, start), lo, hi)
  {
    hide Renamed, PlaceholdersOf;
    match t
    case SAtom(p) =>
      RelabelAtom(p, start);
      assert PlaceholdersFor(true, start, |PlaceholdersOf(p)|)[0] == Numbered(start + 1);
      assert !WithinNumber(Numbered(start + 1), lo, hi);
    case SNot(e) => RelabelFirst(e, start, lo, hi);
    case SAnd(l, r) => if TreeCount(l) > 0 { RelabelFirst(l, start, lo, hi); } else { RelabelFirst(r, start, lo, hi); }
    case SOr(l, r) => if TreeCount(l) > 0 { RelabelFirst(l, start, lo, hi); } else { RelabelFirst(r, start, lo, hi); }
  }

  /** The right operand, whose marks come after `count` marks of the left one, which has `n` arguments. */
  lemma RightOperand(marks: Folded, numbered: Folded, start: nat, count: nat, n: nat, more: nat, aligned: bool)
    requires count <= n && (numbered == FoldedRelabel(marks, start + n) <==> aligned)
    requires FoldedCount(marks) == 0 <==> FoldedCount(numbered) == 0
    requires FoldedCount(marks) == 0 ==> aligned
    requires numbered.Tree? ==> WithinNumbers(numbered.t, start + n, more)
    ensures numbered == FoldedRelabel(marks, start + count) <==> aligned && (count == n || FoldedCount(marks) == 0)
  {
    hide WithinNumbers;
    if count < n && marks.Tree? {
      if TreeCount(marks.t) == 0 {
        RelabelNothing(marks.t, start + count, start + n);
      } else {
        RelabelFirst(marks.t, start + count, start + n, more);
      }
    }
  }

  lemma FoldedEqual(op: LogicalOp, l: Folded, r: Folded, l': Folded, r': Folded)
    requires ConstantOf(l) == ConstantOf(l') && ConstantOf(r) == ConstantOf(r')
    ensures ConstantOf(l) == Some(op.Or?) || ConstantOf(r) == Some(op.Or?) ==> FoldOp(op, l, r) == FoldOp(op, l', r')
    ensures ConstantOf(l) != Some(op.Or?) && ConstantOf(r) != Some(op.Or?) ==>
              (FoldOp(op, l, r) == FoldOp(op, l', r') <==> l == l' && r == r')
  {
  }

  lemma RelabelKeepsConstant(f: Folded, start: nat)
    ensures ConstantOf(FoldedRelabel(f, start)) == ConstantOf(f)
  {
  }

  /** Both placeholder styles collect the same arguments, and they agree on the placeholders if and only
    * if the condition is aligned.
    */
  ghost predicate AlignedHere(schema: Schema, dialect: Dialect, start: nat, c: Condition)
  {
    && Simplify(schema, dialect, false, start, c).Ok? && Simplify(schema, dialect, true, start, c).Ok?
    && var (marks, args) := Simplify(schema, dialect, false, start, c).value;
       var (numbered, same) := Simplify(schema, dialect, true, start, c).value;
       same == args && (numbered == FoldedRelabel(marks, start) <==> Aligned(schema, dialect, c))
  }

  lemma RelabelledConstant(start: nat)
    ensures FoldedRelabel(Always, start) == Always && FoldedRelabel(Impossible, start) == Impossible
  {
  }

  lemma RelabelledAtom(p: Predicate, start: nat)
    ensures FoldedRelabel(Tree(SAtom(p)), start)
         == Tree(SAtom(Renamed(p, PlaceholdersFor(true, start, |PlaceholdersOf(p)|))))
  {
    hide Renamed, PlaceholdersOf, PlaceholdersFor;
  }

  lemma NotRelabelled(marks: Folded, numbered: Folded, start: nat)
    ensures FoldNot(numbered) == FoldedRelabel(FoldNot(marks), start) <==> numbered == FoldedRelabel(marks, start)
  {
  }

  lemma SimplifyLogical(schema: Schema, dialect: Dialect, numbered: bool, start: nat, c: Condition, l: Folded,
                        la: seq<Value>, r: Folded, ra: seq<Value>)
    requires c.Logical? && Simplify(schema, dialect, numbered, start, c.left) == Ok((l, la))
    requires Simplify(schema, dialect, numbered, start + |la|, c.right) == Ok((r, ra))
    ensures Simplify(schema, dialect, numbered, start, c) == Ok((FoldOp(c.op, l, r), la + ra))
  {
    hide RenderLeaf;
  }

  lemma FoldedOperation(op: LogicalOp, l: Folded, l': Folded, r: Folded, r': Folded, start: nat, n: nat, more: nat,
                        alignedLeft: bool, alignedRight: bool)
    requires ConstantOf(l) == ConstantOf(l') && ConstantOf(r) == ConstantOf(r')
    requires l' == FoldedRelabel(l, start) <==> alignedLeft
    requires r' == FoldedRelabel(r, start + n) <==> alignedRight
    requires FoldedCount(l) <= n && (FoldedCount(r) == 0 <==> FoldedCount(r') == 0)
    requires FoldedCount(r) == 0 ==> alignedRight
    requires r'.Tree? ==> WithinNumbers(r'.t, start + n, more)
    ensures FoldOp(op, l', r') == FoldedRelabel(FoldOp(op, l, r), start)
       <==> ConstantOf(l) == Some(op.Or?) || ConstantOf(r) == Some(op.Or?)
            || (alignedLeft && alignedRight && (FoldedCount(l) == n || FoldedCount(r) == 0))
  {
    var count := FoldedCount(l);
    RelabelOp(op, l, r, start, count);
    RelabelKeepsConstant(l, start);
    RelabelKeepsConstant(r, start + count);
    FoldedEqual(op, l', r', FoldedRelabel(l, start), FoldedRelabel(r, start + count));
    hide FoldOp, FoldedRelabel, FoldedCount, ConstantOf, WithinNumbers;
    RightOperand(r, r', start, count, n, more, alignedRight);
  }

  lemma OperandFacts(schema: Schema, dialect: Dialect, start: nat, c: Condition)
    requires Simplify(schema, dialect, false, start, c).Ok? && Simplify(schema, dialect, true, start, c).Ok?
    requires Simplify(schema, dialect, false, start, c).value.1 == Simplify(schema, dialect, true, start, c).value.1
    ensures var (marks, args) := Simplify(schema, dialect, false, start, c).value;
            var numbered := Simplify(schema, dialect, true, start, c).value.0;
            && ConstantOf(marks) == ConstantOf(numbered) == Constantly(c)
            && FoldedCount(marks) <= |args| && (FoldedCount(marks) == |args| <==> KeepsArgs(schema, dialect, c))
            && (FoldedCount(marks) == 0 <==> NoMarks(schema, dialect, c))
            && (FoldedCount(numbered) == 0 <==> NoMarks(schema, dialect, c))
            && (NoMarks(schema, dialect, c) ==> Aligned(schema, dialect, c))
            && (numbered.Tree? ==> WithinNumbers(numbered.t, start, start + |args|))
  {
    CountExact(schema, dialect, false, start, c);
    CountExact(schema, dialect, true, start, c);
    MarksCounted(schema, dialect, false, start, c);
    MarksCounted(schema, dialect, true, start, c);
    SimplifyWithin(schema, dialect, start, c);
    if NoMarks(schema, dialect, c) {
      NoMarksAligned(schema, dialect, c);
    }
  }

  lemma AlignedOperation(schema: Schema, dialect: Dialect, start: nat, c: Condition)
    requires c.Logical? && AlignedHere(schema, dialect, start, c.left)
    requires var n := |Simplify(schema, dialect, false, start, c.left).value.1|;
             AlignedHere(schema, dialect, start + n, c.right)
    ensures AlignedHere(schema, dialect, start, c)
  {
    hide Simplify, FoldOp, FoldedRelabel, FoldedCount, ConstantOf, KeepsArgs, NoMarks, WithinNumbers, Constantly;
    var (l, la) := Simplify(schema, dialect, false, start, c.left).value;
    var (l', _) := Simplify(schema, dialect, true, start, c.left).value;
    var (r, ra) := Simplify(schema, dialect, false, start + |la|, c.right).value;
    var (r', _) := Simplify(schema, dialect, true, start + |la|, c.right).value;
    SimplifyLogical(schema, dialect, false, start, c, l, la, r, ra);
    SimplifyLogical(schema, dialect, true, start, c, l', la, r', ra);
    OperandFacts(schema, dialect, start, c.left);
    OperandFacts(schema, dialect, start + |la|, c.right);
    FoldedOperation(c.op, l, l', r, r', start, |la|, start + |la| + |ra|,
                    Aligned(schema, dialect, c.left), Aligned(schema, dialect, c.right));
  }

  /** Numbering the marks from left to right numbers every leaf's own arguments if and only if no mark
    * stands after a discarded argument.
    */
  lemma {:induction false} AlignedExact(schema: Schema, dialect: Dialect, start: nat, c: Condition)
    requires Simplify(schema, dialect, false, start, c).Ok?
    ensures AlignedHere(schema, dialect, start, c)
    decreases c
  {
    hide RenderLeaf, PlaceholdersOf, PlaceholdersFor, Fill, Renamed, FoldedRelabel;
    if c.Logical? {
      AlignedExact(schema, dialect, start, c.left);
      var n := |Simplify(schema, dialect, false, start, c.left).value.1|;
      AlignedExact(schema, dialect, start + n, c.right);
      AlignedOperation(schema, dialect, start, c);
    } else if c.Not? {
      AlignedExact(schema, dialect, start, c.expr);
      NotRelabelled(Simplify(schema, dialect, false, start, c.expr).value.0,
          Simplify(schema, dialect, true, start, c.expr).value.0, start);
    } else if c.Constant? {
      RelabelledConstant(start);
    } else {
      var leaf := RenderLeaf(schema, dialect, c).value;
      RelabelLeaf(leaf.template, start, |leaf.args|);
      RelabelledAtom(Fill(leaf.template, PlaceholdersFor(false, start, |leaf.args|)), start);
    }
  }

  /** A statement whose arguments are not discarded before a mark has the meaning of the condition on
    * every row, also when the driver ignores a surplus, if and only if the database reads the text.
    */
  lemma InOrderStatementMeans(schema: Schema, dialect: Dialect, offset: nat, c: Condition, s: Statement, row: Row)
    requires !dialect.Postgres? && PlainFold(row.fold)
    requires StatementSpec(schema, dialect, offset, c) == Ok(s) && Aligned(schema, dialect, c)
    ensures EvalInOrder(dialect, s.sql, row, s.args)
         == if Accepts(dialect, c) then Some(Meaning(c, schema, row)) else None
  {
    hide Simplify, StatementText, Renumber, Count, EvalText, EvalFolded, Meaning, FoldedRelabel, Aligned, PlainFold;
    hide FoldedReadable, Accepts;
    StyleKeepsShape(schema, dialect, offset, 0, c);
    var (f, args) := Simplify(schema, dialect, false, 0, c).value;
    StatementCount(f);
    AlignedExact(schema, dialect, 0, c);
    assert Holds(args, 0, args) by { assert args[0..0 + |args|] == args; }
    SimplifyMeans(schema, dialect, 0, c, row, args);
    ReadableExact(schema, dialect, true, 0, c, dialect);
    EvalWritten(dialect, FoldedRelabel(f, 0), row, args);
  }

  function Contained(field: string, value: string): Condition { TextMatch(field, Contains, value) }

  /** `(v AND false) OR w` */
  function Misbound(field: string, v: string, w: string): Condition {
    Logical(Or, Logical(And, Contained(field, v), Constant(false)), Contained(field, w))
  }

  lemma SimplifyContained(schema: Schema, dialect: Dialect, numbered: bool, start: nat, field: string, value: string)
    requires field in schema
    ensures Simplify(schema, dialect, numbered, start, Contained(field, value))
         == Ok((Tree(SAtom(FoldedLike(field, PlaceholderFor(numbered, start + 1)))), [Text(Pattern(Contains, value))]))
  {
    assert PlaceholdersFor(numbered, start, 1) == [PlaceholderFor(numbered, start + 1)];
  }

  lemma MisboundText(schema: Schema, dialect: Dialect, field: string, v: string, w: string)
    requires !dialect.Postgres? && field in schema
    ensures var s := StatementSpec(schema, dialect, 0, Misbound(field, v, w));
            && s.Ok? && s.value.args == [Text(Pattern(Contains, v)), Text(Pattern(Contains, w))]
            && Renumber(s.value.sql, 0) == StatementText(Tree(SAtom(FoldedLike(field, Numbered(1)))))
  {
    var p, q := Text(Pattern(Contains, v)), Text(Pattern(Contains, w));
    var mark := Tree(SAtom(FoldedLike(field, Mark)));
    var c := Misbound(field, v, w);
    SimplifyContained(schema, dialect, false, 0, field, v);
    SimplifyContained(schema, dialect, false, 1, field, w);
    assert Simplify(schema, dialect, false, 1, Constant(false)) == Ok((Impossible, []));
    SimplifyLogical(schema, dialect, false, 0, c.left, mark, [p], Impossible, []);
    assert [p] + [] == [p] && [p] + [q] == [p, q];
    SimplifyLogical(schema, dialect, false, 0, c, Impossible, [p], mark, [q]);
    hide Simplify, Pattern;
    assert PlaceholdersFor(true, 0, 1) == [Numbered(1)];
    StatementCount(mark);
  }

  lemma ContainedMeans(schema: Schema, dialect: Dialect, field: string, value: string, row: Row, more: seq<Value>)
    requires field in schema && PlainFold(row.fold)
    ensures EvalText(dialect, StatementText(Tree(SAtom(FoldedLike(field, Numbered(1))))), row,
            [Text(Pattern(Contains, value))] + more)
         == Some(Meaning(Contained(field, value), schema, row))
  {
    var f := Tree(SAtom(FoldedLike(field, Numbered(1))));
    var args := [Text(Pattern(Contains, value))] + more;
    SimplifyContained(schema, Postgres, true, 0, field, value);
    assert args[0..1] == [Text(Pattern(Contains, value))];
    SimplifyMeans(schema, Postgres, 0, Contained(field, value), row, args);
    EvalWritten(dialect, f, row, args);
  }

  /** The one mark of the text is bound to the pattern of `v`: the statement filters by `v`, but the
    * condition means `w`.
    */
  lemma MisboundArgument(schema: Schema, dialect: Dialect, field: string, v: string, w: string, row: Row)
    requires !dialect.Postgres? && field in schema && PlainFold(row.fold)
    ensures var s := StatementSpec(schema, dialect, 0, Misbound(field, v, w));
            && s.Ok?
            && EvalInOrder(dialect, s.value.sql, row, s.value.args) == Some(Meaning(Contained(field, v), schema, row))
    ensures Meaning(Misbound(field, v, w), schema, row) == Meaning(Contained(field, w), schema, row)
  {
    MisboundText(schema, dialect, field, v, w);
    ContainedMeans(schema, dialect, field, v, row, [Text(Pattern(Contains, w))]);
    hide StatementSpec, StatementText, Renumber, EvalText, Pattern, TextMatches, PlainFold, LeafMeaning;
    var p, q := Text(Pattern(Contains, v)), Text(Pattern(Contains, w));
    assert [p] + [q] == [p, q];
    var first, second := Meaning(Contained(field, v), schema, row), Meaning(Contained(field, w), schema, row);
    assert Meaning(Misbound(field, v, w).left, schema, row) == And3(first, False) == False;
    assert Or3(False, second) == second;
  }

  /** On a row with the text `a` the two differ. */
  lemma MisboundDiffers(schema: Schema, field: string, row: Row)
    requires row.columns == map[field := Text("a")] && row.fold('a') == 'a' && row.fold('b') == 'b'
    ensures Meaning(Contained(field, "a"), schema, row) == True
    ensures Meaning(Contained(field, "b"), schema, row) == False
  {
    assert Fold("a", row.fold)[0] == 'a' && Fold("b", row.fold)[0] == 'b';
    assert Fold("a", row.fold) == "a" && Fold("b", row.fold) == "b";
    assert "a" <= "a"[0..];
    assert forall i :: 0 <= i <= |"a"| ==> !("b" <= "a"[i..]);
  }
}
