/** Queries put together from filters and further clauses (`internal/filter/helpers.go` and the drivers'
  * memo queries): what they mean with numbered placeholders and with `?`.
  */
module FilterQueries {
  import opened Wrappers
  import opened FilterConditions
  import opened LikePatterns
  import opened SqlText
  import opened FilterRender
  import opened FilterMeaning
  import opened FilterPlaceholders
  import opened FilterAppend
  import opened FilterPositional

  /** A filter, or a clause of the driver's own with an argument for each mark. */
  datatype Piece = Filter(c: Condition) | Clause(t: Sql, own: seq<Value>)
  {
    predicate Valid() { Clause? ==> TreeCount(t) == |own| }
  }

  /** The driver's own clauses are numbered after the arguments so far. */
  function Styled(numbered: bool, t: Sql, start: nat): Sql { if numbered then Relabel(t, start) else t }

  function Next(schema: Schema, dialect: Dialect, numbered: bool, piece: Piece, q: Query): Result<Query, RenderError> {
    match piece
    case Filter(c) =>
      var (f, own) :- Simplify(schema, dialect, numbered, |q.args|, c);
      Ok(AppendOne(q, Statement(StatementText(f), own)))
    case Clause(t, own) => Ok(Query(q.where + [Print(Styled(numbered, t, |q.args|))], q.args + own))
  }

  function Build(schema: Schema, dialect: Dialect, numbered: bool, pieces: seq<Piece>,
                 q: Query): Result<Query, RenderError> {
    if pieces == [] then Ok(q) else
      var next :- Next(schema, dialect, numbered, pieces[0], q);
      Build(schema, dialect, numbered, pieces[1..], next)
  }

  function Filters(filters: seq<Condition>): (pieces: seq<Piece>)
    ensures |pieces| == |filters| && forall i :: 0 <= i < |filters| ==> pieces[i] == Filter(filters[i])
  {
    seq(|filters|, i requires 0 <= i < |filters| => Filter(filters[i]))
  }

  /** `AppendConditions` builds the query of its filters. */
  lemma {:induction false} AppendRunBuilds(schema: Schema, dialect: Dialect, filters: seq<Condition>, q: Query)
    ensures var run := AppendRun(schema, dialect, filters, q);
            Build(schema, dialect, dialect.Postgres?, Filters(filters), q)
            == if run.error.None? then Ok(run.q) else Err(run.error.value)
    decreases |filters|
  {
    hide Simplify, AppendOne, StatementText;
    if filters != [] {
      assert Filters(filters)[1..] == Filters(filters[1..]);
      var s := StatementSpec(schema, dialect, |q.args|, filters[0]);
      if s.Ok? {
        AppendRunBuilds(schema, dialect, filters[1..], AppendOne(q, s.value));
      }
    }
  }

  predicate PieceAccepted(dialect: Dialect, piece: Piece) {
    match piece
    case Filter(c) => Accepts(dialect, c)
    case Clause(t, _) => Readable(dialect, t)
  }

  ghost function PieceMean(piece: Piece, schema: Schema, row: Row): Tri {
    match piece
    case Filter(c) => Meaning(c, schema, row)
    case Clause(t, own) => EvalSql(Relabel(t, 0), row, own)
  }

  predicate AllValid(pieces: seq<Piece>) { forall i :: 0 <= i < |pieces| ==> pieces[i].Valid() }

  predicate AllPiecesAccepted(dialect: Dialect, pieces: seq<Piece>) {
    forall i :: 0 <= i < |pieces| ==> PieceAccepted(dialect, pieces[i])
  }

  ghost function PiecesMean(pieces: seq<Piece>, schema: Schema, row: Row): Tri {
    if pieces == [] then True else And3(PieceMean(pieces[0], schema, row), PiecesMean(pieces[1..], schema, row))
  }

  // Numbered placeholders.

  /** Two ranges of arguments with the same values. */
  ghost predicate SameRange(a: nat, left: seq<Value>, b: nat, right: seq<Value>, n: nat) {
    a + n <= |left| && b + n <= |right| && left[a..a + n] == right[b..b + n]
  }

  lemma SplitRange(a: nat, left: seq<Value>, b: nat, right: seq<Value>, n: nat, m: nat)
    requires SameRange(a, left, b, right, n + m)
    ensures SameRange(a, left, b, right, n) && SameRange(a + n, left, b + n, right, m)
  {
    var l, r := left[a..a + (n + m)], right[b..b + (n + m)];
    assert l[..n] == left[a..a + n] && r[..n] == right[b..b + n];
    assert l[n..] == left[a + n..a + n + m] && r[n..] == right[b + n..b + n + m];
  }

  lemma SameBound(a: nat, left: seq<Value>, b: nat, right: seq<Value>, n: nat)
    requires SameRange(a, left, b, right, n)
    ensures var (p, r) := (PlaceholdersFor(true, a, n), PlaceholdersFor(true, b, n));
            AllBound(p, left) && AllBound(r, right) && BoundValues(p, left) == BoundValues(r, right)
  {
    var p, r := PlaceholdersFor(true, a, n), PlaceholdersFor(true, b, n);
    forall i | 0 <= i < n
      ensures Bound(p[i], left).Some? && Bound(p[i], left) == Bound(r[i], right)
    {
      assert left[a..a + n][i] == right[b..b + n][i];
    }
  }

  lemma ShiftAtom(p: Predicate, row: Row, a: nat, left: seq<Value>, b: nat, right: seq<Value>)
    requires SameRange(a, left, b, right, |PlaceholdersOf(p)|)
    ensures var n := |PlaceholdersOf(p)|;
            EvalPredicate(Renamed(p, PlaceholdersFor(true, a, n)), row, left)
            == EvalPredicate(Renamed(p, PlaceholdersFor(true, b, n)), row, right)
  {
    var n := |PlaceholdersOf(p)|;
    SameBound(a, left, b, right, n);
    hide Compare, Like, Fold, Stored;
    if n > 0 {
      var ps, rs := PlaceholdersFor(true, a, n), PlaceholdersFor(true, b, n);
      assert Bound(ps[0], left) == Some(BoundValues(ps, left)[0])
             && Bound(rs[0], right) == Some(BoundValues(rs, right)[0]);
    }
  }

  /** What a tree means depends on the values that its marks are bound to only. */
  lemma {:induction false} ShiftMeans(t: Sql, row: Row, a: nat, left: seq<Value>, b: nat, right: seq<Value>)
    requires SameRange(a, left, b, right, TreeCount(t))
    ensures EvalSql(Relabel(t, a), row, left) == EvalSql(Relabel(t, b), row, right)
  {
    hide EvalPredicate, Renamed, PlaceholdersOf, SameRange, And3, Or3, Not3;
    match t
    case SAtom(p) => ShiftAtom(p, row, a, left, b, right);
    case SNever =>
    case SNot(e) => ShiftMeans(e, row, a, left, b, right);
    case SAnd(l, r) =>
      SplitRange(a, left, b, right, TreeCount(l), TreeCount(r));
      ShiftMeans(l, row, a, left, b, right);
      ShiftMeans(r, row, a + TreeCount(l), left, b + TreeCount(l), right);
    case SOr(l, r) =>
      SplitRange(a, left, b, right, TreeCount(l), TreeCount(r));
      ShiftMeans(l, row, a, left, b, right);
      ShiftMeans(r, row, a + TreeCount(l), left, b + TreeCount(l), right);
  }

  lemma {:induction false} RelabelReadable(t: Sql, start: nat)
    ensures NoEmptyIn(Relabel(t, start)) <==> NoEmptyIn(t)
  {
    match t
    case SAtom(p) =>
    case SNever =>
    case SNot(e) => RelabelReadable(e, start);
    case SAnd(l, r) => RelabelReadable(l, start); RelabelReadable(r, start + TreeCount(l));
    case SOr(l, r) => RelabelReadable(l, start); RelabelReadable(r, start + TreeCount(l));
  }

  lemma RelabelBothWithin(l: Sql, r: Sql, start: nat)
    requires var middle, end := start + TreeCount(l), start + TreeCount(l) + TreeCount(r);
             WithinNumbers(Relabel(l, start), start, middle) && WithinNumbers(Relabel(r, middle), middle, end)
    ensures var middle, end := start + TreeCount(l), start + TreeCount(l) + TreeCount(r);
            WithinNumbers(Relabel(l, start), start, end) && WithinNumbers(Relabel(r, middle), start, end)
  {
    hide WithinNumbers, Relabel, TreeCount;
    var middle, end := start + TreeCount(l), start + TreeCount(l) + TreeCount(r);
    WithinMore(Relabel(l, start), start, middle, start, end);
    WithinMore(Relabel(r, middle), middle, end, start, end);
  }

  lemma {:induction false} RelabelWithin(t: Sql, start: nat)
    ensures WithinNumbers(Relabel(t, start), start, start + TreeCount(t))
  {
    hide Renamed, PlaceholdersOf;
    match t
    case SAtom(p) => RelabelAtom(p, start);
    case SNever =>
    case SNot(e) => RelabelWithin(e, start);
    case SAnd(l, r) =>
      RelabelWithin(l, start);
      RelabelWithin(r, start + TreeCount(l));
      RelabelBothWithin(l, r, start);
    case SOr(l, r) =>
      RelabelWithin(l, start);
      RelabelWithin(r, start + TreeCount(l));
      RelabelBothWithin(l, r, start);
  }

  /** A clause of the driver's own. */
  lemma ClauseMeans(dialect: Dialect, t: Sql, own: seq<Value>, q: Query, row: Row)
    requires ValidQuery(dialect, q) && TreeCount(t) == |own|
    ensures var q' := Query(q.where + [Print(Relabel(t, |q.args|))], q.args + own);
            if Readable(dialect, t)
            then ValidQuery(dialect, q')
                 && (Conjunction(dialect, q.where, row, q.args).Some? ==>
                       Conjunction(dialect, q'.where, row, q'.args)
                       == Some(And3(Conjunction(dialect, q.where, row, q.args).value,
                           EvalSql(Relabel(t, 0), row, own))))
            else !ClauseReads(dialect, Print(Relabel(t, |q.args|)))
  {
    hide Relabel, Print, Parse, NoEmptyIn, TreeCount, WithinNumbers, EvalSql, ValidQuery, Conjunction;
    var start := |q.args|;
    var numbered := Relabel(t, start);
    ParsePrint(numbered);
    RelabelReadable(t, start);
    RelabelWithin(t, start);
    WithinMore(numbered, start, start + |own|, 0, start + |own|);
    assert (q.args + own)[start..start + |own|] == own[0..|own|];
    ShiftMeans(t, row, start, q.args + own, 0, own);
    if Readable(dialect, t) {
      AppendText(dialect, q, Print(numbered), numbered, own, row);
    }
  }

  /** One piece with numbered placeholders: the old clauses keep their value, and the new one has the
    * meaning of the piece, unless the database does not read it.
    */
  lemma NextMeans(schema: Schema, dialect: Dialect, piece: Piece, q: Query, q': Query, row: Row)
    requires PlainFold(row.fold) && ValidQuery(dialect, q) && piece.Valid()
    requires Next(schema, dialect, true, piece, q) == Ok(q')
    ensures q.args <= q'.args && q.where <= q'.where
    ensures if PieceAccepted(dialect, piece)
            then ValidQuery(dialect, q')
                 && (Conjunction(dialect, q.where, row, q.args).Some? ==>
                       Conjunction(dialect, q'.where, row, q'.args)
                       == Some(And3(Conjunction(dialect, q.where, row, q.args).value, PieceMean(piece, schema, row))))
            else exists i :: 0 <= i < |q'.where| && !ClauseReads(dialect, q'.where[i])
  {
    hide ValidQuery, Conjunction, Accepts, ClauseReads, Readable, Simplify, StatementText, Meaning, EvalSql,
        Relabel, Print, TreeCount;
    match piece
    case Clause(t, own) =>
      ClauseMeans(dialect, t, own, q, row);
      assert q'.where[|q.where|] == Print(Relabel(t, |q.args|));
    case Filter(c) =>
      var (f, own) := Simplify(schema, dialect, true, |q.args|, c).value;
      AppendFolded(schema, dialect, c, q, f, own, row);
      AlwaysTrue(f, row, own);
      NotSkipped(f);
      if !Accepts(dialect, c) {
        assert q'.where[|q.where|] == InParentheses(StatementText(f));
      }
  }

  lemma {:induction false} BuildGrows(schema: Schema, dialect: Dialect, pieces: seq<Piece>, q: Query, q': Query)
    requires Build(schema, dialect, true, pieces, q) == Ok(q')
    ensures q.args <= q'.args && q.where <= q'.where
    decreases |pieces|
  {
    hide Simplify, InParentheses, Print, Styled, StatementText;
    if pieces != [] {
      BuildGrows(schema, dialect, pieces[1..], Next(schema, dialect, true, pieces[0], q).value, q');
    }
  }

  lemma BuildUnread(schema: Schema, dialect: Dialect, pieces: seq<Piece>, q: Query, q': Query, row: Row)
    requires Build(schema, dialect, true, pieces, q) == Ok(q')
    requires exists i :: 0 <= i < |q.where| && !ClauseReads(dialect, q.where[i])
    ensures Conjunction(dialect, q'.where, row, q'.args).None?
  {
    hide ClauseReads, Build;
    BuildGrows(schema, dialect, pieces, q, q');
    ConjunctionReads(dialect, q'.where, row, q'.args);
    var i :| 0 <= i < |q.where| && !ClauseReads(dialect, q.where[i]);
    assert q'.where[i] == q.where[i];
  }

  lemma FirstPiece(dialect: Dialect, pieces: seq<Piece>)
    requires pieces != []
    ensures AllPiecesAccepted(dialect, pieces)
            <==> PieceAccepted(dialect, pieces[0]) && AllPiecesAccepted(dialect, pieces[1..])
    ensures AllValid(pieces) <==> pieces[0].Valid() && AllValid(pieces[1..])
  {
    hide PieceAccepted, Piece.Valid;
    assert pieces == [pieces[0]] + pieces[1..];
  }

  /** A query of filters and further clauses with numbered placeholders: the database reads it if and only
    * if no empty IN list is left, and then on every row it means the earlier clauses and all the pieces.
    */
  lemma {:induction false} QueryMeans(schema: Schema, dialect: Dialect, pieces: seq<Piece>, q: Query, q': Query,
                                      row: Row)
    requires PlainFold(row.fold) && ValidQuery(dialect, q) && AllValid(pieces)
    requires Build(schema, dialect, true, pieces, q) == Ok(q')
    ensures Conjunction(dialect, q.where, row, q.args).Some?
    ensures Conjunction(dialect, q'.where, row, q'.args)
         == if AllPiecesAccepted(dialect, pieces)
            then Some(And3(Conjunction(dialect, q.where, row, q.args).value, PiecesMean(pieces, schema, row)))
            else None
    decreases |pieces|
  {
    hide ValidQuery, Next, PieceAccepted, PieceMean, ClauseReads, Conjunction, Piece.Valid;
    ValidQueryReads(dialect, q, row);
    var before := Conjunction(dialect, q.where, row, q.args).value;
    if pieces == [] {
      assert And3(before, True) == before;
    } else {
      var q1 := Next(schema, dialect, true, pieces[0], q).value;
      FirstPiece(dialect, pieces);
      hide AllPiecesAccepted, AllValid;
      NextMeans(schema, dialect, pieces[0], q, q1, row);
      if PieceAccepted(dialect, pieces[0]) {
        QueryMeans(schema, dialect, pieces[1..], q1, q', row);
        And3Associates(before, PieceMean(pieces[0], schema, row), PiecesMean(pieces[1..], schema, row));
      } else {
        BuildUnread(schema, dialect, pieces[1..], q1, q', row);
      }
    }
  }

  // Marks, which the driver binds from left to right.

  function CountAll(where: seq<seq<Token>>): nat {
    if where == [] then 0 else CountAll(where[..|where| - 1]) + Count(where[|where| - 1])
  }

  /** The clauses with their marks numbered from left to right over the whole query. */
  function RenumberAll(where: seq<seq<Token>>): (numbered: seq<seq<Token>>)
    ensures |numbered| == |where|
  {
    if where == [] then [] else
      var init := where[..|where| - 1];
      RenumberAll(init) + [Renumber(where[|where| - 1], CountAll(init))]
  }

  lemma RenumberNext(where: seq<seq<Token>>, clause: seq<Token>)
    ensures CountAll(where + [clause]) == CountAll(where) + Count(clause)
    ensures RenumberAll(where + [clause]) == RenumberAll(where) + [Renumber(clause, CountAll(where))]
  {
    hide Count, Renumber;
    assert (where + [clause])[..|where|] == where;
  }

  lemma ParenthesesCount(text: seq<Token>, start: nat)
    ensures Count(InParentheses(text)) == Count(text)
    ensures Renumber(InParentheses(text), start) == InParentheses(Renumber(text, start))
  {
    hide Count, Renumber;
    PlainToken(LParen, start);
    PlainToken(RParen, start + Count(text));
    TextAppend([LParen], text, start);
    TextAppend([LParen] + text, [RParen], start);
  }

  lemma FilterClauseCount(f: Folded, start: nat)
    ensures var clause := InParentheses(StatementText(f));
            Count(clause) == FoldedCount(f)
                && Renumber(clause, start) == InParentheses(StatementText(FoldedRelabel(f, start)))
  {
    ParenthesesCount(StatementText(f), start);
    if f.Tree? {
      RenumberPrint(f.t, start);
    } else if f.Impossible? {
      PlainToken(Never, start);
    }
  }

  /** The filter is skipped, or none of its arguments was discarded. */
  predicate PieceKeeps(schema: Schema, dialect: Dialect, piece: Piece) {
    piece.Filter? ==> Constantly(piece.c) == Some(true) || KeepsArgs(schema, dialect, piece.c)
  }

  /** No mark of the piece stands after a discarded argument; `lost` says that one was discarded before. */
  predicate PieceAligned(schema: Schema, dialect: Dialect, piece: Piece, lost: bool) {
    match piece
    case Filter(c) =>
      Constantly(c) == Some(true) || (if lost then NoMarks(schema, dialect, c) else Aligned(schema, dialect, c))
    case Clause(t, _) => !lost || TreeCount(t) == 0
  }

  /** No mark of the query stands after a discarded argument. */
  predicate AllAligned(schema: Schema, dialect: Dialect, pieces: seq<Piece>, lost: bool) {
    pieces == [] ||
    (PieceAligned(schema, dialect, pieces[0], lost)
     && AllAligned(schema, dialect, pieces[1..], lost || !PieceKeeps(schema, dialect, pieces[0])))
  }

  lemma InParenthesesInjective(a: seq<Token>, b: seq<Token>)
    ensures InParentheses(a) == InParentheses(b) <==> a == b
  {
    assert InParentheses(a)[1..|InParentheses(a)| - 1] == a;
    assert InParentheses(b)[1..|InParentheses(b)| - 1] == b;
  }

  lemma PrintInjective(t: Sql, u: Sql)
    ensures Print(t) == Print(u) <==> t == u
  {
    ParsePrint(t);
    ParsePrint(u);
  }

  lemma ClauseTextInjective(f: Folded, g: Folded)
    requires ConstantOf(f) == ConstantOf(g)
    ensures InParentheses(StatementText(f)) == InParentheses(StatementText(g)) <==> f == g
  {
    InParenthesesInjective(StatementText(f), StatementText(g));
    if f.Tree? {
      PrintInjective(f.t, g.t);
    }
  }

  lemma AppendBoth(where: seq<seq<Token>>, other: seq<seq<Token>>, clause: seq<Token>, same: seq<Token>)
    requires |where| == |other|
    ensures where + [clause] == other + [same] <==> where == other && clause == same
  {
    assert (where + [clause])[..|where|] == where && (other + [same])[..|other|] == other;
    assert (where + [clause])[|where|] == clause && (other + [same])[|other|] == same;
  }

  /** A clause of the driver's own, bound after `count` marks, where there are `n` arguments. */
  lemma ClauseBinds(t: Sql, count: nat, n: nat)
    requires count <= n
    ensures Print(Relabel(t, n)) == Renumber(Print(t), count) <==> count == n || TreeCount(t) == 0
  {
    RenumberPrint(t, count);
    PrintInjective(Relabel(t, n), Relabel(t, count));
    hide Print, Renumber, Relabel, WithinNumbers;
    if TreeCount(t) == 0 {
      RelabelNothing(t, count, n);
    } else if count < n {
      RelabelWithin(t, n);
      RelabelFirst(t, count, n, n + TreeCount(t));
    }
  }

  /** A filter's clause, bound after `count` marks, where there are `n` arguments. */
  lemma FilterBinds(schema: Schema, dialect: Dialect, c: Condition, count: nat, n: nat)
    requires count <= n && Simplify(schema, dialect, false, n, c).Ok?
    ensures Simplify(schema, dialect, true, n, c).Ok?
    ensures var (f, own) := Simplify(schema, dialect, false, n, c).value;
            var (g, same) := Simplify(schema, dialect, true, n, c).value;
            && same == own && ConstantOf(f) == ConstantOf(g) == Constantly(c)
            && (InParentheses(StatementText(g)) == Renumber(InParentheses(StatementText(f)), count)
                <==> if count < n then NoMarks(schema, dialect, c) else Aligned(schema, dialect, c))
  {
    AlignedExact(schema, dialect, n, c);
    OperandFacts(schema, dialect, n, c);
    hide Simplify, KeepsArgs, NoMarks, Aligned, Constantly, WithinNumbers, StatementText, InParentheses, Renumber,
        TreeCount, Relabel;
    hide Count;
    var (f, own) := Simplify(schema, dialect, false, n, c).value;
    var (g, _) := Simplify(schema, dialect, true, n, c).value;
    hide FoldedCount, FoldedRelabel, ConstantOf;
    RightOperand(f, g, 0, count, n, n + |own|, Aligned(schema, dialect, c));
    FilterClauseCount(f, count);
    RelabelKeepsConstant(f, count);
    ClauseTextInjective(g, FoldedRelabel(f, count));
  }

  /** The query with its marks, and the same query with numbered placeholders. */
  ghost predicate Paired(marks: Query, numbered: Query) {
    && CountAll(marks.where) <= |marks.args|
    && |numbered.where| == |marks.where| && numbered.args == marks.args
  }

  /** Binding the marks from left to right binds every one to its own argument. */
  ghost predicate BindsOwn(marks: Query, numbered: Query) { numbered.where == RenumberAll(marks.where) }

  ghost predicate Lost(q: Query) { CountAll(q.where) < |q.args| }

  lemma NextClause(marks: Query, numbered: Query, clause: seq<Token>, same: seq<Token>, own: seq<Value>, aligned: bool)
    requires Paired(marks, numbered) && Count(clause) <= |own|
    requires same == Renumber(clause, CountAll(marks.where)) <==> aligned
    ensures var m := Query(marks.where + [clause], marks.args + own);
            var n := Query(numbered.where + [same], marks.args + own);
            && Paired(m, n) && (BindsOwn(m, n) <==> BindsOwn(marks, numbered) && aligned)
            && (Lost(m) <==> Lost(marks) || Count(clause) < |own|)
  {
    hide CountAll, RenumberAll, Count, Renumber;
    RenumberNext(marks.where, clause);
    AppendBoth(numbered.where, RenumberAll(marks.where), same, Renumber(clause, CountAll(marks.where)));
  }

  /** One piece keeps the binding if and only if none of its marks stands after a discarded argument. */
  lemma NextBinds(schema: Schema, dialect: Dialect, piece: Piece, marks: Query, m: Query, numbered: Query)
    requires Paired(marks, numbered) && piece.Valid() && Next(schema, dialect, false, piece, marks) == Ok(m)
    ensures Next(schema, dialect, true, piece, numbered).Ok?
    ensures var n := Next(schema, dialect, true, piece, numbered).value;
            && Paired(m, n)
            && (BindsOwn(m, n) <==> BindsOwn(marks, numbered) && PieceAligned(schema, dialect, piece, Lost(marks)))
            && (Lost(m) <==> Lost(marks) || !PieceKeeps(schema, dialect, piece))
  {
    var count, start := CountAll(marks.where), |marks.args|;
    hide CountAll, RenumberAll, Count, Renumber, Print, Relabel, TreeCount, StatementText, InParentheses, BindsOwn;
    hide Simplify, KeepsArgs, NoMarks, Aligned, Constantly, ConstantOf, FoldedCount;
    match piece
    case Clause(t, own) =>
      ClauseBinds(t, count, start);
      RenumberPrint(t, count);
      NextClause(marks, numbered, Print(t), Print(Relabel(t, start)), own, count == start || TreeCount(t) == 0);
    case Filter(c) =>
      FilterBinds(schema, dialect, c, count, start);
      var (f, own) := Simplify(schema, dialect, false, start, c).value;
      var (g, _) := Simplify(schema, dialect, true, start, c).value;
      NotSkipped(f);
      NotSkipped(g);
      if !f.Always? {
        FilterClauseCount(f, count);
        CountExact(schema, dialect, false, start, c);
        NextClause(marks, numbered, InParentheses(StatementText(f)), InParentheses(StatementText(g)), own,
                   PieceAligned(schema, dialect, piece, Lost(marks)));
      }
  }

  predicate AllKeep(schema: Schema, dialect: Dialect, pieces: seq<Piece>) {
    forall i :: 0 <= i < |pieces| ==> PieceKeeps(schema, dialect, pieces[i])
  }

  lemma FirstKeeps(schema: Schema, dialect: Dialect, pieces: seq<Piece>)
    requires pieces != []
    ensures AllKeep(schema, dialect, pieces)
            <==> PieceKeeps(schema, dialect, pieces[0]) && AllKeep(schema, dialect, pieces[1..])
  {
    hide PieceKeeps;
    assert pieces == [pieces[0]] + pieces[1..];
  }

  /** Every mark of the query is bound to its own argument if and only if no mark stands after a discarded
    * argument, whether the driver refuses a surplus of arguments or ignores it.
    */
  lemma {:induction false} BuildBinds(schema: Schema, dialect: Dialect, pieces: seq<Piece>, marks: Query, m: Query,
                                      numbered: Query)
    requires Paired(marks, numbered) && AllValid(pieces) && Build(schema, dialect, false, pieces, marks) == Ok(m)
    ensures Build(schema, dialect, true, pieces, numbered).Ok?
    ensures var n := Build(schema, dialect, true, pieces, numbered).value;
            && Paired(m, n)
            && (BindsOwn(m, n) <==> BindsOwn(marks, numbered) && AllAligned(schema, dialect, pieces, Lost(marks)))
            && (Lost(m) <==> Lost(marks) || !AllKeep(schema, dialect, pieces))
    decreases |pieces|
  {
    hide Next, Paired, BindsOwn, Lost, PieceAligned, PieceKeeps, Piece.Valid;
    if pieces != [] {
      FirstPiece(dialect, pieces);
      FirstKeeps(schema, dialect, pieces);
      var next := Next(schema, dialect, false, pieces[0], marks).value;
      NextBinds(schema, dialect, pieces[0], marks, next, numbered);
      hide AllValid, AllKeep;
      BuildBinds(schema, dialect, pieces[1..], next, m, Next(schema, dialect, true, pieces[0], numbered).value);
    }
  }

  lemma {:induction false} KeepsAligned(schema: Schema, dialect: Dialect, c: Condition)
    requires KeepsArgs(schema, dialect, c)
    ensures Aligned(schema, dialect, c)
  {
    if c.Logical? {
      KeepsAligned(schema, dialect, c.left);
      KeepsAligned(schema, dialect, c.right);
    } else if c.Not? {
      KeepsAligned(schema, dialect, c.expr);
    }
  }

  lemma {:induction false} AllKeepAligned(schema: Schema, dialect: Dialect, pieces: seq<Piece>)
    requires AllKeep(schema, dialect, pieces)
    ensures AllAligned(schema, dialect, pieces, false)
  {
    hide KeepsArgs, Aligned;
    if pieces != [] {
      FirstKeeps(schema, dialect, pieces);
      AllKeepAligned(schema, dialect, pieces[1..]);
      if pieces[0].Filter? && KeepsArgs(schema, dialect, pieces[0].c) {
        KeepsAligned(schema, dialect, pieces[0].c);
      }
    }
  }

  /** Executing a query with `?` placeholders when a surplus of arguments is ignored. */
  ghost function EvalQueryInOrder(dialect: Dialect, q: Query, row: Row): Option<Tri> {
    Conjunction(dialect, RenumberAll(q.where), row, q.args)
  }

  /** Executing a query with `?` placeholders when a wrong number of arguments is refused. */
  ghost function EvalMarks(dialect: Dialect, q: Query, row: Row): Option<Tri> {
    if CountAll(q.where) != |q.args| then None else EvalQueryInOrder(dialect, q, row)
  }

  /** There is an argument for every mark, and the database reads the numbered clauses. */
  ghost predicate ValidMarks(dialect: Dialect, q: Query) {
    CountAll(q.where) == |q.args| && ValidQuery(dialect, Query(RenumberAll(q.where), q.args))
  }

  /** What the pieces add to the earlier clauses, unless the database does not read one of them. */
  ghost function Extended(dialect: Dialect, pieces: seq<Piece>, before: Tri, schema: Schema, row: Row): Option<Tri> {
    if AllPiecesAccepted(dialect, pieces) then Some(And3(before, PiecesMean(pieces, schema, row))) else None
  }

  /** A `?` query in which no mark stands after a discarded argument: on every row it means the earlier
    * clauses and all the pieces, also when a surplus of arguments is ignored.
    */
  lemma InOrderQueryMeans(schema: Schema, dialect: Dialect, pieces: seq<Piece>, q: Query, q': Query, row: Row)
    requires PlainFold(row.fold) && ValidMarks(dialect, q) && AllValid(pieces)
    requires Build(schema, dialect, false, pieces, q) == Ok(q') && AllAligned(schema, dialect, pieces, false)
    ensures EvalQueryInOrder(dialect, q, row).Some?
    ensures EvalQueryInOrder(dialect, q', row)
         == Extended(dialect, pieces, EvalQueryInOrder(dialect, q, row).value, schema, row)
  {
    var numbered := Query(RenumberAll(q.where), q.args);
    BuildBinds(schema, dialect, pieces, q, q', numbered);
    hide CountAll, RenumberAll, Build, AllAligned, AllValid, AllPiecesAccepted, ValidQuery, Conjunction, PlainFold,
        PiecesMean, AllKeep;
    QueryMeans(schema, dialect, pieces, numbered, Build(schema, dialect, true, pieces, numbered).value, row);
  }

  lemma ValidMarksRead(dialect: Dialect, q: Query, row: Row)
    requires ValidMarks(dialect, q)
    ensures EvalQueryInOrder(dialect, q, row).Some?
  {
    ValidQueryReads(dialect, Query(RenumberAll(q.where), q.args), row);
  }

  /** With a driver that refuses a surplus, the query can be executed if and only if every filter is skipped
    * or keeps its arguments and the database reads it, and then it has that meaning.
    */
  lemma QueryMarksMean(schema: Schema, dialect: Dialect, pieces: seq<Piece>, q: Query, q': Query, row: Row)
    requires PlainFold(row.fold) && ValidMarks(dialect, q) && AllValid(pieces)
    requires Build(schema, dialect, false, pieces, q) == Ok(q')
    ensures EvalMarks(dialect, q, row).Some?
    ensures EvalMarks(dialect, q', row)
         == if AllKeep(schema, dialect, pieces)
             then Extended(dialect, pieces, EvalMarks(dialect, q, row).value, schema, row) else None
  {
    var numbered := Query(RenumberAll(q.where), q.args);
    assert CountAll(q.where) == |q.args|;
    BuildBinds(schema, dialect, pieces, q, q', numbered);
    hide RenumberAll, CountAll, Build, AllAligned, AllValid, AllKeep, Extended, ValidQuery, Conjunction, PlainFold,
        EvalQueryInOrder;
    ValidQueryReads(dialect, numbered, row);
    assert EvalQueryInOrder(dialect, q, row).Some? by { ValidMarksRead(dialect, q, row); }
    if AllKeep(schema, dialect, pieces) {
      AllKeepAligned(schema, dialect, pieces);
      InOrderQueryMeans(schema, dialect, pieces, q, q', row);
    }
  }

  // A later clause that is bound to a discarded argument.

  /** `(v AND false) OR flag` */
  function Discarding(field: string, v: string, flag: string): Condition {
    Logical(Or, Logical(And, Contained(field, v), Constant(false)), FieldPredicate(flag))
  }

  /** `creator = n` */
  function CreatorIs(creator: string, n: int): Piece { Clause(SAtom(Cmp(creator, Eq, Mark)), [Num(n)]) }

  lemma DiscardingText(schema: Schema, dialect: Dialect, field: string, v: string, flag: string)
    requires field in schema && flag in schema && schema[flag].kind.BoolColumnKind?
    ensures Simplify(schema, dialect, false, 0, Discarding(field, v, flag))
         == Ok((Tree(SAtom(IsTrue(flag))), [Text(Pattern(Contains, v))]))
  {
    var p := Text(Pattern(Contains, v));
    var mark := Tree(SAtom(FoldedLike(field, Mark)));
    var c := Discarding(field, v, flag);
    SimplifyContained(schema, dialect, false, 0, field, v);
    assert Simplify(schema, dialect, false, 1, Constant(false)) == Ok((Impossible, []));
    SimplifyLogical(schema, dialect, false, 0, c.left, mark, [p], Impossible, []);
    assert [p] + [] == [p];
    assert Simplify(schema, dialect, false, 1, c.right) == Ok((Tree(SAtom(IsTrue(flag))), []));
    SimplifyLogical(schema, dialect, false, 0, c, Impossible, [p], Tree(SAtom(IsTrue(flag))), []);
  }

  lemma DiscardingQuery(schema: Schema, dialect: Dialect, field: string, v: string, flag: string, creator: string,
                        n: int)
    requires field in schema && flag in schema && schema[flag].kind.BoolColumnKind?
    ensures var first := Query([InParentheses([Atom(IsTrue(flag))])], [Text(Pattern(Contains, v))]);
            && Next(schema, dialect, false, Filter(Discarding(field, v, flag)), Query([], [])) == Ok(first)
            && Next(schema, dialect, false, CreatorIs(creator, n), first)
               == Ok(Query(first.where + [[Atom(Cmp(creator, Eq, Mark))]], first.args + [Num(n)]))
  {
    DiscardingText(schema, dialect, field, v, flag);
    hide Simplify, Pattern;
    assert [] + [Text(Pattern(Contains, v))] == [Text(Pattern(Contains, v))];
    assert [] + [InParentheses([Atom(IsTrue(flag))])] == [InParentheses([Atom(IsTrue(flag))])];
    assert StatementText(Tree(SAtom(IsTrue(flag)))) == [Atom(IsTrue(flag))];
  }

  lemma RenumberTwo(first: seq<Token>, second: seq<Token>)
    ensures RenumberAll([first, second]) == [Renumber(first, 0), Renumber(second, Count(first))]
  {
    hide Renumber, Count;
    assert RenumberAll([]) == [] && CountAll([]) == 0;
    hide RenumberAll, CountAll;
    RenumberNext([], first);
    RenumberNext([first], second);
    assert [] + [first] == [first] && [first] + [second] == [first, second];
  }

  /** The mark of the second clause gets the number of the discarded argument. */
  lemma DiscardingNumbers(flag: string, creator: string)
    ensures var first := InParentheses([Atom(IsTrue(flag))]);
            RenumberAll([first, [Atom(Cmp(creator, Eq, Mark))]]) == [first, [Atom(Cmp(creator, Eq, Numbered(1)))]]
  {
    hide Renumber, Count, InParentheses, RenumberAll;
    RenumberTwo(InParentheses([Atom(IsTrue(flag))]), [Atom(Cmp(creator, Eq, Mark))]);
    FilterClauseCount(Tree(SAtom(IsTrue(flag))), 0);
    RenumberPrint(SAtom(Cmp(creator, Eq, Mark)), 0);
    assert PlaceholdersFor(true, 0, 0) == [] && PlaceholdersFor(true, 0, 1) == [Numbered(1)];
  }

  lemma TwoClauses(dialect: Dialect, first: seq<Token>, second: seq<Token>, row: Row, args: seq<Value>)
    requires EvalText(dialect, first, row, args) == Some(True) && EvalText(dialect, second, row, args) == Some(False)
    ensures Conjunction(dialect, [first, second], row, args) == Some(False)
  {
    hide EvalText;
    assert [first, second][..1] == [first] && [first][..0] == [];
    assert Conjunction(dialect, [first], row, args) == Some(True);
  }

  lemma DiscardingReads(dialect: Dialect, flag: string, creator: string, p: Value, n: int, row: Row)
    requires flag in row.columns && Stored(row.columns[flag]) == Num(1)
    requires creator in row.columns && row.columns[creator] == Num(n) && p.Text?
    ensures var where := [InParentheses([Atom(IsTrue(flag))]), [Atom(Cmp(creator, Eq, Mark))]];
            EvalQueryInOrder(dialect, Query(where, [p, Num(n)]), row) == Some(False)
  {
    var flagged, numbered := SAtom(IsTrue(flag)), SAtom(Cmp(creator, Eq, Numbered(1)));
    ParseParentheses(flagged);
    ParsePrint(numbered);
    DiscardingNumbers(flag, creator);
    hide Parse, RenumberAll, InParentheses, Conjunction;
    TwoClauses(dialect, InParentheses(Print(flagged)), Print(numbered), row, [p, Num(n)]);
  }

  lemma {:induction false} DiscardingMeans(field: string, v: string, flag: string, creator: string, n: int,
                                           schema: Schema, row: Row)
    requires flag in schema && schema[flag].kind.BoolColumnKind?
    requires flag in row.columns && Stored(row.columns[flag]) == Num(1)
    requires creator in row.columns && row.columns[creator] == Num(n)
    ensures PiecesMean([Filter(Discarding(field, v, flag)), CreatorIs(creator, n)], schema, row) == True
  {
    hide TextMatches;
    var c := Discarding(field, v, flag);
    var pieces := [Filter(c), CreatorIs(creator, n)];
    assert Meaning(c.left, schema, row) == And3(Meaning(c.left.left, schema, row), False) == False;
    assert Meaning(c.right, schema, row) == True;
    assert Meaning(c, schema, row) == Or3(False, True) && PieceMean(Filter(c), schema, row) == True;
    assert PlaceholdersFor(true, 0, 1) == [Numbered(1)];
    assert PieceMean(CreatorIs(creator, n), schema, row) == True;
    assert pieces[1..] == [CreatorIs(creator, n)] && pieces[1..][1..] == [];
    hide PieceMean;
    assert PiecesMean(pieces[1..], schema, row) == And3(PieceMean(CreatorIs(creator, n), schema, row), True);
  }

  lemma BuildTwo(schema: Schema, dialect: Dialect, a: Piece, b: Piece, q: Query)
    requires Next(schema, dialect, false, a, q).Ok?
    ensures Build(schema, dialect, false, [a, b], q)
         == Next(schema, dialect, false, b, Next(schema, dialect, false, a, q).value)
  {
    hide Next;
    assert [a, b][1..] == [b] && [b][1..] == [];
    var q1 := Next(schema, dialect, false, a, q).value;
    assert Build(schema, dialect, false, [b], q1) == Next(schema, dialect, false, b, q1);
  }

  /** The filter `(v AND false) OR flag` before the clause `creator = n`: when a surplus is ignored, the mark of
    * the clause is bound to the pattern of `v`, and a row that meets the filter and the clause is not found.
    */
  lemma MisboundClause(schema: Schema, dialect: Dialect, field: string, v: string, flag: string, creator: string,
                       n: int, row: Row)
    returns (q: Query)
    requires field in schema && flag in schema && schema[flag].kind.BoolColumnKind?
    requires flag in row.columns && Stored(row.columns[flag]) == Num(1)
    requires creator in row.columns && row.columns[creator] == Num(n)
    ensures var pieces := [Filter(Discarding(field, v, flag)), CreatorIs(creator, n)];
            && Build(schema, dialect, false, pieces, Query([], [])) == Ok(q)
            && PiecesMean(pieces, schema, row) == True
    ensures EvalQueryInOrder(dialect, q, row) == Some(False)
  {
    var pieces := [Filter(Discarding(field, v, flag)), CreatorIs(creator, n)];
    var p := Text(Pattern(Contains, v));
    q := Query([InParentheses([Atom(IsTrue(flag))]), [Atom(Cmp(creator, Eq, Mark))]], [p, Num(n)]);
    DiscardingQuery(schema, dialect, field, v, flag, creator, n);
    DiscardingReads(dialect, flag, creator, p, n, row);
    DiscardingMeans(field, v, flag, creator, n, schema, row);
    hide Next, PiecesMean, EvalQueryInOrder, Pattern, InParentheses, Discarding, CreatorIs;
    BuildTwo(schema, dialect, Filter(Discarding(field, v, flag)), CreatorIs(creator, n), Query([], []));
    assert [InParentheses([Atom(IsTrue(flag))])] + [[Atom(Cmp(creator, Eq, Mark))]] == q.where
           && [p] + [Num(n)] == q.args;
  }
}
