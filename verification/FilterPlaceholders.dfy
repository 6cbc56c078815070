/** Placeholder bookkeeping: when positional `?` text is bindable, and why appended filters never
  * rebind each other's numbers (`internal/filter/helpers.go`).
  */
module FilterPlaceholders {
  import opened Wrappers
  import opened FilterConditions
  import opened LikePatterns
  import opened SqlText
  import opened FilterRender
  import opened FilterMeaning

  // Placeholders in text order.

  function PlaceholdersOf(p: Predicate): seq<Placeholder> {
    match p
    case IsTrue(_) => []
    case IsNull(_) => []
    case IsNotNull(_) => []
    case Cmp(_, _, ph) => [ph]
    case InList(_, phs) => phs
    case FoldedLike(_, ph) => [ph]
    case Test(_, _, phs) => phs
  }

  function Renamed(p: Predicate, phs: seq<Placeholder>): Predicate
    requires |phs| == |PlaceholdersOf(p)|
  {
    match p
    case IsTrue(_) => p
    case IsNull(_) => p
    case IsNotNull(_) => p
    case Cmp(c, op, _) => Cmp(c, op, phs[0])
    case InList(c, _) => InList(c, phs)
    case FoldedLike(c, _) => FoldedLike(c, phs[0])
    case Test(leaf, inline, _) => Test(leaf, inline, phs)
  }

  function Count(ts: seq<Token>): nat {
    if ts == [] then 0 else (if ts[0].Atom? then |PlaceholdersOf(ts[0].p)| else 0) + Count(ts[1..])
  }

  /** What a driver does with `?`: number the marks from left to right. */
  function Renumber(ts: seq<Token>, start: nat): seq<Token> {
    if ts == [] then []
    else if ts[0].Atom? then
      var n := |PlaceholdersOf(ts[0].p)|;
      [Atom(Renamed(ts[0].p, PlaceholdersFor(true, start, n)))] + Renumber(ts[1..], start + n)
    else [ts[0]] + Renumber(ts[1..], start)
  }

  // The same on trees.

  function TreeCount(t: Sql): nat {
    match t
    case SAtom(p) => |PlaceholdersOf(p)|
    case SNever => 0
    case SNot(e) => TreeCount(e)
    case SAnd(l, r) => TreeCount(l) + TreeCount(r)
    case SOr(l, r) => TreeCount(l) + TreeCount(r)
  }

  function Relabel(t: Sql, start: nat): Sql {
    match t
    case SAtom(p) => SAtom(Renamed(p, PlaceholdersFor(true, start, |PlaceholdersOf(p)|)))
    case SNever => t
    case SNot(e) => SNot(Relabel(e, start))
    case SAnd(l, r) => SAnd(Relabel(l, start), Relabel(r, start + TreeCount(l)))
    case SOr(l, r) => SOr(Relabel(l, start), Relabel(r, start + TreeCount(l)))
  }

  lemma {:induction false} TextAppend(a: seq<Token>, b: seq<Token>, start: nat)
    ensures Count(a + b) == Count(a) + Count(b)
    ensures Renumber(a + b, start) == Renumber(a, start) + Renumber(b, start + Count(a))
  {
    hide PlaceholdersOf, Renamed, PlaceholdersFor;
    if a == [] {
      assert a + b == b;
    } else {
      assert (a + b)[1..] == a[1..] + b && (a + b)[0] == a[0];
      TextAppend(a[1..], b, start + if a[0].Atom? then |PlaceholdersOf(a[0].p)| else 0);
    }
  }

  lemma PlainToken(t: Token, start: nat)
    requires !t.Atom?
    ensures Count([t]) == 0 && Renumber([t], start) == [t]
  {
  }

  lemma InfixText(l: seq<Token>, op: Token, r: seq<Token>, start: nat)
    requires !op.Atom?
    ensures Count([LParen] + l + [op] + r + [RParen]) == Count(l) + Count(r)
    ensures Renumber([LParen] + l + [op] + r + [RParen], start)
         == [LParen] + Renumber(l, start) + [op] + Renumber(r, start + Count(l)) + [RParen]
  {
    hide Count, Renumber;
    var a := [LParen] + l;
    var b := a + [op];
    PlainToken(LParen, start);
    PlainToken(op, start + Count(l));
    PlainToken(RParen, start + Count(l) + Count(r));
    TextAppend([LParen], l, start);
    TextAppend(a, [op], start);
    TextAppend(b, r, start);
    TextAppend(b + r, [RParen], start);
  }

  lemma {:induction false} RenumberInfix(t: Sql, op: Token, start: nat)
    requires (t.SAnd? && op == AND) || (t.SOr? && op == OR)
    ensures Count(Print(t)) == TreeCount(t)
    ensures Renumber(Print(t), start) == Print(Relabel(t, start))
    decreases t, 0
  {
    hide Count, Renumber;
    RenumberPrint(t.l, start);
    RenumberPrint(t.r, start + TreeCount(t.l));
    InfixText(Print(t.l), op, Print(t.r), start);
  }

  /** Numbering printed text is relabelling the tree. */
  lemma {:induction false} RenumberPrint(t: Sql, start: nat)
    ensures Count(Print(t)) == TreeCount(t)
    ensures Renumber(Print(t), start) == Print(Relabel(t, start))
    decreases t, 1
  {
    if t.SAtom? {
      assert [Atom(t.p)][1..] == [];
    } else if t.SNever? {
      PlainToken(Never, start);
    } else if t.SNot? {
      RenumberNot(t, start);
    } else {
      RenumberInfix(t, if t.SAnd? then AND else OR, start);
    }
  }

  lemma {:induction false} RenumberNot(t: Sql, start: nat)
    requires t.SNot?
    ensures Count(Print(t)) == TreeCount(t)
    ensures Renumber(Print(t), start) == Print(Relabel(t, start))
    decreases t, 0
  {
    hide Count, Renumber;
    var open := [NOT, LParen];
    RenumberPrint(t.e, start);
    PlainToken(NOT, start);
    PlainToken(LParen, start);
    PlainToken(RParen, start + TreeCount(t.e));
    TextAppend([NOT], [LParen], start);
    assert [NOT] + [LParen] == open;
    TextAppend(open, Print(t.e), start);
    TextAppend(open + Print(t.e), [RParen], start);
  }

  function FoldedCount(f: Folded): nat { if f.Tree? then TreeCount(f.t) else 0 }

  function FoldedRelabel(f: Folded, start: nat): Folded { if f.Tree? then Tree(Relabel(f.t, start)) else f }

  // Discarded siblings.

  /** No leaf of the condition binds an argument. */
  predicate NoArgs(schema: Schema, dialect: Dialect, c: Condition) {
    match c
    case Logical(_, l, r) => NoArgs(schema, dialect, l) && NoArgs(schema, dialect, r)
    case Not(e) => NoArgs(schema, dialect, e)
    case Constant(_) => true
    case _ => RenderLeaf(schema, dialect, c).Ok? ==> RenderLeaf(schema, dialect, c).value.args == []
  }

  /** Wherever `false AND x` or `true OR x` is folded away, `x` binds no argument. */
  predicate KeepsArgs(schema: Schema, dialect: Dialect, c: Condition) {
    match c
    case Logical(op, l, r) =>
      && KeepsArgs(schema, dialect, l) && KeepsArgs(schema, dialect, r)
      && (Constantly(l) == Some(op.Or?) ==> NoArgs(schema, dialect, r))
      && (Constantly(r) == Some(op.Or?) ==> NoArgs(schema, dialect, l))
    case Not(e) => KeepsArgs(schema, dialect, e)
    case _ => true
  }

  predicate ConstantFree(c: Condition) {
    match c
    case Logical(_, l, r) => ConstantFree(l) && ConstantFree(r)
    case Not(e) => ConstantFree(e)
    case Constant(_) => false
    case _ => true
  }

  /** Without constants nothing folds away. */
  lemma {:induction false} ConstantFreeKeeps(schema: Schema, dialect: Dialect, c: Condition)
    requires ConstantFree(c)
    ensures Constantly(c).None? && KeepsArgs(schema, dialect, c)
  {
    if c.Logical? {
      ConstantFreeKeeps(schema, dialect, c.left);
      ConstantFreeKeeps(schema, dialect, c.right);
    } else if c.Not? {
      ConstantFreeKeeps(schema, dialect, c.expr);
    }
  }

  lemma LeafCount(t: Template, phs: seq<Placeholder>)
    requires t.TCmp? || t.TLike? ==> |phs| == 1
    requires t.TIsTrue? || t.TIsNull? || t.TIsNotNull? ==> |phs| == 0
    ensures PlaceholdersOf(Fill(t, phs)) == phs
  {
  }

  function FoldOp(op: LogicalOp, l: Folded, r: Folded): Folded { if op.And? then FoldAnd(l, r) else FoldOr(l, r) }

  lemma CountOp(op: LogicalOp, l: Folded, r: Folded)
    ensures var absorbing := Some(op.Or?);
            var f := FoldOp(op, l, r);
            if ConstantOf(l) == absorbing || ConstantOf(r) == absorbing
            then ConstantOf(f) == absorbing && FoldedCount(f) == 0
            else FoldedCount(f) == FoldedCount(l) + FoldedCount(r)
                 && ConstantOf(f) == if ConstantOf(l).Some? then ConstantOf(r)
                                     else if ConstantOf(r).Some? then ConstantOf(l)
                                     else None
    ensures ConstantOf(l).Some? ==> FoldedCount(l) == 0
    ensures ConstantOf(r).Some? ==> FoldedCount(r) == 0
  {
  }

  /** The text keeps a placeholder for every collected argument exactly when none was discarded. */
  lemma {:induction false} CountExact(schema: Schema, dialect: Dialect, numbered: bool, start: nat, c: Condition)
    requires Simplify(schema, dialect, numbered, start, c).Ok?
    ensures var (f, args) := Simplify(schema, dialect, numbered, start, c).value;
            && ConstantOf(f) == Constantly(c)
            && (args == [] <==> NoArgs(schema, dialect, c))
            && FoldedCount(f) <= |args|
            && (FoldedCount(f) == |args| <==> KeepsArgs(schema, dialect, c))
    decreases c
  {
    hide RenderLeaf, PlaceholdersOf, PlaceholdersFor, Fill;
    if c.Logical? {
      hide FoldAnd, FoldOr, FoldedCount, ConstantOf;
      var (l, la) := Simplify(schema, dialect, numbered, start, c.left).value;
      var (r, ra) := Simplify(schema, dialect, numbered, start + |la|, c.right).value;
      CountExact(schema, dialect, numbered, start, c.left);
      CountExact(schema, dialect, numbered, start + |la|, c.right);
      CountOp(c.op, l, r);
    } else if c.Not? {
      CountExact(schema, dialect, numbered, start, c.expr);
    } else if c.Constant? {
    } else {
      var leaf := RenderLeaf(schema, dialect, c).value;
      LeafCount(leaf.template, PlaceholdersFor(numbered, start, |leaf.args|));
    }
  }

  lemma KeepsParts(schema: Schema, dialect: Dialect, c: Condition)
    requires c.Logical? && KeepsArgs(schema, dialect, c)
    ensures KeepsArgs(schema, dialect, c.left) && KeepsArgs(schema, dialect, c.right)
  {
  }

  lemma RelabelLeaf(t: Template, start: nat, n: nat)
    requires t.TCmp? || t.TLike? ==> n == 1
    requires t.TIsTrue? || t.TIsNull? || t.TIsNotNull? ==> n == 0
    ensures var marked := Fill(t, PlaceholdersFor(false, start, n));
            && |PlaceholdersOf(marked)| == n
            && Renamed(marked, PlaceholdersFor(true, start, n)) == Fill(t, PlaceholdersFor(true, start, n))
  {
  }

  lemma RelabelOp(op: LogicalOp, l: Folded, r: Folded, start: nat, n: nat)
    requires FoldedCount(l) == n
    ensures FoldedRelabel(FoldOp(op, l, r), start) == FoldOp(op, FoldedRelabel(l, start), FoldedRelabel(r, start + n))
  {
  }

  /** The two placeholder styles give the same tree and arguments, up to the placeholders; when no
    * argument is discarded, numbering the marks gives the numbered tree.
    */
  lemma {:induction false} MarksAreNumbers(schema: Schema, dialect: Dialect, start: nat, c: Condition)
    requires Simplify(schema, dialect, false, start, c).Ok? && KeepsArgs(schema, dialect, c)
    ensures var (marks, args) := Simplify(schema, dialect, false, start, c).value;
            Simplify(schema, dialect, true, start, c) == Ok((FoldedRelabel(marks, start), args))
    decreases c
  {
    hide RenderLeaf, PlaceholdersOf, PlaceholdersFor, Fill, Renamed;
    if c.Logical? {
      hide FoldAnd, FoldOr, FoldedCount, FoldedRelabel, ConstantOf, KeepsArgs, Constantly;
      var (l, la) := Simplify(schema, dialect, false, start, c.left).value;
      var (r, ra) := Simplify(schema, dialect, false, start + |la|, c.right).value;
      KeepsParts(schema, dialect, c);
      MarksAreNumbers(schema, dialect, start, c.left);
      MarksAreNumbers(schema, dialect, start + |la|, c.right);
      CountExact(schema, dialect, false, start, c.left);
      RelabelOp(c.op, l, r, start, |la|);
    } else if c.Not? {
      MarksAreNumbers(schema, dialect, start, c.expr);
    } else if c.Constant? {
    } else {
      var leaf := RenderLeaf(schema, dialect, c).value;
      RelabelLeaf(leaf.template, start, |leaf.args|);
    }
  }

  // Statements with `?` placeholders.

  /** Executing `?` text: the driver refuses a wrong number of arguments and otherwise binds the
    * marks from left to right.
    */
  ghost function EvalPositional(dialect: Dialect, text: seq<Token>, row: Row, args: seq<Value>): Option<Tri> {
    if Count(text) != |args| then None else EvalText(dialect, Renumber(text, 0), row, args)
  }

  lemma StatementCount(f: Folded)
    ensures Count(StatementText(f)) == FoldedCount(f)
    ensures Renumber(StatementText(f), 0) == StatementText(FoldedRelabel(f, 0))
  {
    if f.Tree? {
      RenumberPrint(f.t, 0);
    } else if f.Impossible? {
      PlainToken(Never, 0);
    }
  }

  lemma StyleKeepsShape(schema: Schema, dialect: Dialect, a: nat, b: nat, c: Condition)
    ensures Simplify(schema, dialect, false, a, c).Ok? ==>
            Simplify(schema, dialect, false, b, c) == Simplify(schema, dialect, false, a, c)
    decreases c
  {
    hide RenderLeaf, Fill;
    if c.Logical? {
      StyleKeepsShape(schema, dialect, a, b, c.left);
      if Simplify(schema, dialect, false, a, c.left).Ok? {
        var n := |Simplify(schema, dialect, false, a, c.left).value.1|;
        StyleKeepsShape(schema, dialect, a + n, b + n, c.right);
      }
    } else if c.Not? {
      StyleKeepsShape(schema, dialect, a, b, c.expr);
    } else if !c.Constant? && RenderLeaf(schema, dialect, c).Ok? {
      var n := |RenderLeaf(schema, dialect, c).value.args|;
      assert PlaceholdersFor(false, a, n) == PlaceholdersFor(false, b, n);
    }
  }

  /** A `?` statement can be executed exactly when no argument was discarded with a folded sibling and
    * the database reads the text, and then it has the meaning of the condition on every row.
    */
  lemma PositionalStatementMeans(schema: Schema, dialect: Dialect, offset: nat, c: Condition, s: Statement, row: Row)
    requires !dialect.Postgres? && PlainFold(row.fold)
    requires StatementSpec(schema, dialect, offset, c) == Ok(s)
    ensures EvalPositional(dialect, s.sql, row, s.args)
         == if KeepsArgs(schema, dialect, c) && Accepts(dialect, c) then Some(Meaning(c, schema, row)) else None
  {
    hide Simplify, StatementText, Renumber, Count, EvalText, EvalFolded, Meaning, FoldedRelabel, KeepsArgs, PlainFold;
    hide FoldedReadable, Accepts;
    StyleKeepsShape(schema, dialect, offset, 0, c);
    var (f, args) := Simplify(schema, dialect, false, 0, c).value;
    CountExact(schema, dialect, false, 0, c);
    StatementCount(f);
    if KeepsArgs(schema, dialect, c) {
      MarksAreNumbers(schema, dialect, 0, c);
      assert Holds(args, 0, args) by { assert args[0..0 + |args|] == args; }
      SimplifyMeans(schema, dialect, 0, c, row, args);
      ReadableExact(schema, dialect, true, 0, c, dialect);
      EvalWritten(dialect, FoldedRelabel(f, 0), row, args);
    }
  }

  /** A text filter beside a false constant: the text is `1 = 0`, but the pattern stays among the
    * arguments, so the `?` statement cannot be executed.
    */
  lemma DiscardedArgument(schema: Schema, dialect: Dialect, field: string, value: string, row: Row)
    requires !dialect.Postgres? && field in schema
    ensures var c := Logical(And, TextMatch(field, Contains, value), Constant(false));
            var s := StatementSpec(schema, dialect, 0, c);
            s.Ok? && s.value.sql == [Never] && |s.value.args| == 1
                && EvalPositional(dialect, s.value.sql, row, s.value.args).None?
  {
    PlainToken(Never, 0);
    var text := TextMatch(field, Contains, value);
    assert Simplify(schema, dialect, false, 0, text).Ok?;
    assert Simplify(schema, dialect, false, 1, Constant(false)) == Ok((Impossible, []));
    assert Simplify(schema, dialect, false, 0, Logical(And, text, Constant(false))).value.0 == Impossible;
  }

  predicate WithinNumber(ph: Placeholder, lo: nat, hi: nat) { ph.Numbered? && lo < ph.k <= hi }

  // Filters appended to a statement with numbered placeholders.

  /** Every placeholder of the tree is a number after `lo` and up to `hi`. */
  ghost predicate WithinNumbers(t: Sql, lo: nat, hi: nat) {
    match t
    case SAtom(p) => forall i :: 0 <= i < |PlaceholdersOf(p)| ==> WithinNumber(PlaceholdersOf(p)[i], lo, hi)
    case SNever => true
    case SNot(e) => WithinNumbers(e, lo, hi)
    case SAnd(l, r) => WithinNumbers(l, lo, hi) && WithinNumbers(r, lo, hi)
    case SOr(l, r) => WithinNumbers(l, lo, hi) && WithinNumbers(r, lo, hi)
  }

  lemma PredicateStable(p: Predicate, row: Row, args: seq<Value>, more: seq<Value>)
    requires WithinNumbers(SAtom(p), 0, |args|)
    ensures EvalPredicate(p, row, args + more) == EvalPredicate(p, row, args)
  {
    hide Compare, Like, Fold, Stored;
    var phs := PlaceholdersOf(p);
    forall i | 0 <= i < |phs|
      ensures Bound(phs[i], args + more) == Bound(phs[i], args) && Bound(phs[i], args).Some?
    {
      assert WithinNumber(phs[i], 0, |args|);
    }
    if p.Cmp? || p.FoldedLike? {
      assert Bound(phs[0], args + more) == Bound(phs[0], args);
    } else if p.InList? || p.Test? {
      assert AllBound(phs, args) && AllBound(phs, args + more);
      assert BoundValues(phs, args + more) == BoundValues(phs, args);
    }
  }

  /** Appending arguments does not rebind what was bound before. */
  lemma {:induction false} EvalStable(t: Sql, row: Row, args: seq<Value>, more: seq<Value>)
    requires WithinNumbers(t, 0, |args|)
    ensures EvalSql(t, row, args + more) == EvalSql(t, row, args)
  {
    match t
    case SAtom(p) => PredicateStable(p, row, args, more);
    case SNever =>
    case SNot(e) => EvalStable(e, row, args, more);
    case SAnd(l, r) => EvalStable(l, row, args, more); EvalStable(r, row, args, more);
    case SOr(l, r) => EvalStable(l, row, args, more); EvalStable(r, row, args, more);
  }

  lemma {:induction false} WithinMore(t: Sql, lo: nat, hi: nat, less: nat, more: nat)
    requires WithinNumbers(t, lo, hi) && less <= lo && hi <= more
    ensures WithinNumbers(t, less, more)
  {
    match t
    case SAtom(p) =>
      assert forall i :: 0 <= i < |PlaceholdersOf(p)| ==> WithinNumber(PlaceholdersOf(p)[i], lo, hi);
    case SNever =>
    case SNot(e) => WithinMore(e, lo, hi, less, more);
    case SAnd(l, r) => WithinMore(l, lo, hi, less, more); WithinMore(r, lo, hi, less, more);
    case SOr(l, r) => WithinMore(l, lo, hi, less, more); WithinMore(r, lo, hi, less, more);
  }

  /** A filter's own placeholders are numbers of its own arguments, which come right after its offset. */
  lemma {:induction false} SimplifyWithin(schema: Schema, dialect: Dialect, start: nat, c: Condition)
    requires Simplify(schema, dialect, true, start, c).Ok?
    ensures var (f, args) := Simplify(schema, dialect, true, start, c).value;
            f.Tree? ==> WithinNumbers(f.t, start, start + |args|)
    decreases c
  {
    hide RenderLeaf, Fill, PlaceholdersOf;
    if c.Logical? {
      var (l, la) := Simplify(schema, dialect, true, start, c.left).value;
      var (r, ra) := Simplify(schema, dialect, true, start + |la|, c.right).value;
      SimplifyWithin(schema, dialect, start, c.left);
      SimplifyWithin(schema, dialect, start + |la|, c.right);
      if l.Tree? {
        WithinMore(l.t, start, start + |la|, start, start + |la| + |ra|);
      }
      if r.Tree? {
        WithinMore(r.t, start + |la|, start + |la| + |ra|, start, start + |la| + |ra|);
      }
    } else if c.Not? {
      SimplifyWithin(schema, dialect, start, c.expr);
    } else if !c.Constant? {
      var leaf := RenderLeaf(schema, dialect, c).value;
      LeafCount(leaf.template, PlaceholdersFor(true, start, |leaf.args|));
    }
  }
}
