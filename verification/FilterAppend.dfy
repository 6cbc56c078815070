/** `AppendConditions` (`internal/filter/helpers.go`) over already built condition trees. */
module FilterAppend {
  import opened Wrappers
  import opened FilterConditions
  import opened SqlText
  import opened FilterRender
  import opened FilterMeaning
  import opened FilterPlaceholders

  /** The where-clauses and the bound arguments of a query under construction. */
  datatype Query = Query(where: seq<seq<Token>>, args: seq<Value>)

  /** A query with filters appended, up to the first one that does not render. */
  datatype Appended = Appended(q: Query, error: Option<RenderError>)

  function InParentheses(text: seq<Token>): seq<Token> { [LParen] + text + [RParen] }

  function AppendOne(q: Query, s: Statement): Query {
    if s.sql == [] then q else Query(q.where + [InParentheses(s.sql)], q.args + s.args)
  }

  function AppendRun(schema: Schema, dialect: Dialect, filters: seq<Condition>, q: Query): Appended {
    if filters == [] then Appended(q, None) else
      match StatementSpec(schema, dialect, |q.args|, filters[0])
      case Err(e) => Appended(q, Some(e))
      case Ok(s) => AppendRun(schema, dialect, filters[1..], AppendOne(q, s))
  }

  /** The slices that the caller passes by pointer. */
  class Builder {
    var where: seq<seq<Token>>
    var args: seq<Value>

    constructor (q: Query)
      ensures where == q.where && args == q.args
    {
      where, args := q.where, q.args;
    }

    ghost function Contents(): Query
      reads this
    {
      Query(where, args)
    }

    /** The filters before one that fails have been appended. */
    method AppendConditions(schema: Schema, dialect: Dialect, filters: seq<Condition>)
      returns (error: Option<RenderError>)
      modifies this
      ensures Appended(Contents(), error) == AppendRun(schema, dialect, filters, old(Contents()))
    {
      hide StatementSpec;
      assert filters[0..] == filters;
      for i := 0 to |filters|
        invariant AppendRun(schema, dialect, filters[i..], Contents())
               == AppendRun(schema, dialect, filters, old(Contents()))
      {
        var renderer := new Renderer(schema, dialect, |args|);
        var s := renderer.Render(filters[i]);
        assert filters[i..][0] == filters[i] && filters[i..][1..] == filters[i + 1..];
        if s.Err? {
          return Some(s.error);
        }
        if s.value.sql == [] {
          continue;
        }
        where := where + [InParentheses(s.value.sql)];
        args := args + s.value.args;
      }
      return None;
    }
  }

  /** On an error, exactly the filters before the first one that does not render are appended. */
  lemma {:induction false} AppendedBeforeError(schema: Schema, dialect: Dialect, filters: seq<Condition>, q: Query)
    returns (n: nat)
    ensures n <= |filters|
    ensures AppendRun(schema, dialect, filters[..n], q) == Appended(AppendRun(schema, dialect, filters, q).q, None)
    ensures var run := AppendRun(schema, dialect, filters, q);
            match run.error
            case None => n == |filters|
            case Some(e) => n < |filters| && StatementSpec(schema, dialect, |run.q.args|, filters[n]) == Err(e)
    decreases |filters|
  {
    hide StatementSpec, AppendOne;
    n := 0;
    if filters != [] && StatementSpec(schema, dialect, |q.args|, filters[0]).Ok? {
      var s := StatementSpec(schema, dialect, |q.args|, filters[0]).value;
      var m := AppendedBeforeError(schema, dialect, filters[1..], AppendOne(q, s));
      n := m + 1;
      assert filters[..n][1..] == filters[1..][..m];
    } else {
      assert filters[..0] == [];
    }
  }

  // The meaning of a query: its clauses joined by AND.

  ghost function Conjunction(dialect: Dialect, where: seq<seq<Token>>, row: Row, args: seq<Value>): Option<Tri> {
    if where == [] then Some(True)
    else
      var last := |where| - 1;
      match (Conjunction(dialect, where[..last], row, args), EvalText(dialect, where[last], row, args))
      case (Some(a), Some(b)) => Some(And3(a, b))
      case _ => None
  }

  ghost function AllMean(filters: seq<Condition>, schema: Schema, row: Row): Tri {
    if filters == [] then True else And3(Meaning(filters[0], schema, row), AllMean(filters[1..], schema, row))
  }

  /** The database reads the clause. */
  predicate ClauseReads(dialect: Dialect, clause: seq<Token>) {
    clause == [] || (Parse(clause).Some? && Readable(dialect, Parse(clause).value))
  }

  /** A where-clause that the database reads and that refers to the first `n` arguments. */
  ghost predicate ClauseWithin(dialect: Dialect, clause: seq<Token>, n: nat) {
    clause != [] && ClauseReads(dialect, clause) && WithinNumbers(Parse(clause).value, 0, n)
  }

  /** Every clause is read and refers to the arguments at hand. */
  ghost predicate ValidQuery(dialect: Dialect, q: Query) {
    forall i :: 0 <= i < |q.where| ==> ClauseWithin(dialect, q.where[i], |q.args|)
  }

  lemma {:induction false} ConjunctionReads(dialect: Dialect, where: seq<seq<Token>>, row: Row, args: seq<Value>)
    ensures Conjunction(dialect, where, row, args).Some?
       <==> forall i :: 0 <= i < |where| ==> ClauseReads(dialect, where[i])
  {
    hide Parse, Readable;
    if where != [] {
      var init, last := where[..|where| - 1], where[|where| - 1];
      ConjunctionReads(dialect, init, row, args);
      assert where == init + [last];
    }
  }

  lemma ParseParentheses(t: Sql)
    ensures Parse(InParentheses(Print(t))) == Some(t)
  {
    var text := Print(t);
    ReadPrinted(t, [RParen]);
    ReadToEnd(text + [RParen], t, [RParen]);
    assert [RParen] + [] == [RParen];
    ReadParentheses(text, t, []);
    assert InParentheses(text) + [] == InParentheses(text);
    ReadToEnd(InParentheses(text), t, []);
  }

  lemma ParenthesesMean(dialect: Dialect, f: Folded, row: Row, args: seq<Value>)
    requires !f.Always?
    ensures var clause := InParentheses(StatementText(f));
            && (ClauseReads(dialect, clause) <==> FoldedReadable(dialect, f))
            && EvalText(dialect, clause, row, args)
               == (if FoldedReadable(dialect, f) then Some(EvalFolded(f, row, args)) else None)
            && (forall n :: FoldedReadable(dialect, f) && (f.Tree? ==> WithinNumbers(f.t, 0, n)) ==>
               ClauseWithin(dialect, clause, n))
  {
    ParseParentheses(if f.Tree? then f.t else SNever);
    hide Parse;
  }

  lemma {:induction false} ConjunctionStable(dialect: Dialect, where: seq<seq<Token>>, row: Row, args: seq<Value>,
                                             more: seq<Value>)
    requires forall i :: 0 <= i < |where| ==> ClauseWithin(dialect, where[i], |args|)
    ensures Conjunction(dialect, where, row, args + more) == Conjunction(dialect, where, row, args)
  {
    hide Parse, Readable;
    if where != [] {
      var last := |where| - 1;
      ConjunctionStable(dialect, where[..last], row, args, more);
      assert ClauseWithin(dialect, where[last], |args|);
      EvalStable(Parse(where[last]).value, row, args, more);
    }
  }

  lemma AlwaysTrue(f: Folded, row: Row, args: seq<Value>)
    ensures f.Always? ==> EvalFolded(f, row, args) == True
    ensures forall a :: And3(a, True) == a
  {
  }

  /** One more clause that is read and refers to the arguments at hand. */
  lemma AppendText(dialect: Dialect, q: Query, clause: seq<Token>, t: Sql, own: seq<Value>, row: Row)
    requires ValidQuery(dialect, q) && clause != [] && Parse(clause) == Some(t)
    requires Readable(dialect, t) && WithinNumbers(t, 0, |q.args| + |own|)
    ensures var q' := Query(q.where + [clause], q.args + own);
            && ValidQuery(dialect, q')
            && (Conjunction(dialect, q.where, row, q.args).Some? ==>
                  Conjunction(dialect, q'.where, row, q'.args)
                  == Some(And3(Conjunction(dialect, q.where, row, q.args).value, EvalSql(t, row, q'.args))))
  {
    var where := q.where + [clause];
    var args := q.args + own;
    ConjunctionStable(dialect, q.where, row, q.args, own);
    hide EvalSql, Parse, Readable;
    assert where[..|where| - 1] == q.where && where[|where| - 1] == clause;
    forall i | 0 <= i < |where|
      ensures ClauseWithin(dialect, where[i], |args|)
    {
      if i < |q.where| {
        assert ClauseWithin(dialect, q.where[i], |q.args|);
        WithinMore(Parse(q.where[i]).value, 0, |q.args|, 0, |args|);
      }
    }
  }

  lemma AppendClause(dialect: Dialect, q: Query, f: Folded, own: seq<Value>, row: Row)
    requires ValidQuery(dialect, q) && !f.Always? && FoldedReadable(dialect, f)
    requires f.Tree? ==> WithinNumbers(f.t, 0, |q.args| + |own|)
    ensures var q' := Query(q.where + [InParentheses(StatementText(f))], q.args + own);
            && ValidQuery(dialect, q')
            && (Conjunction(dialect, q.where, row, q.args).Some? ==>
                  Conjunction(dialect, q'.where, row, q'.args)
                  == Some(And3(Conjunction(dialect, q.where, row, q.args).value, EvalFolded(f, row, q'.args))))
  {
    var t := if f.Tree? then f.t else SNever;
    assert StatementText(f) == Print(t);
    ParseParentheses(t);
    hide Parse, Print, ValidQuery, Conjunction;
    AppendText(dialect, q, InParentheses(Print(t)), t, own, row);
  }

  /** The clause of a filter whose placeholders are numbers after the arguments so far. */
  lemma AppendFolded(schema: Schema, dialect: Dialect, c: Condition, q: Query, f: Folded, own: seq<Value>, row: Row)
    requires PlainFold(row.fold) && ValidQuery(dialect, q)
    requires Simplify(schema, dialect, true, |q.args|, c) == Ok((f, own))
    ensures f.Always? ==> Meaning(c, schema, row) == True && Accepts(dialect, c)
    ensures !f.Always? && Accepts(dialect, c) ==>
              var q' := Query(q.where + [InParentheses(StatementText(f))], q.args + own);
              && ValidQuery(dialect, q')
              && (Conjunction(dialect, q.where, row, q.args).Some? ==>
                    Conjunction(dialect, q'.where, row, q'.args)
                    == Some(And3(Conjunction(dialect, q.where, row, q.args).value, Meaning(c, schema, row))))
    ensures !Accepts(dialect, c) ==> !f.Always? && !ClauseReads(dialect, InParentheses(StatementText(f)))
  {
    var args := q.args + own;
    assert args[|q.args|..|q.args| + |own|] == own;
    SimplifyMeans(schema, dialect, |q.args|, c, row, args);
    SimplifyWithin(schema, dialect, |q.args|, c);
    ReadableExact(schema, dialect, true, |q.args|, c, dialect);
    hide Simplify, Meaning, Accepts, ClauseReads, Readable, StatementText;
    if f.Tree? {
      WithinMore(f.t, |q.args|, |args|, 0, |args|);
    }
    if f.Always? {
      AlwaysTrue(f, row, args);
    } else {
      ParenthesesMean(dialect, f, row, args);
      if Accepts(dialect, c) {
        AppendClause(dialect, q, f, own, row);
      }
    }
  }

  /** Only a filter that is always true is skipped. */
  lemma NotSkipped(f: Folded)
    ensures StatementText(f) == [] <==> f.Always?
    ensures ConstantOf(f) == Some(true) <==> f.Always?
  {
  }

  /** One filter: the old clauses keep their value, and the new one has the meaning of the filter, unless
    * the database does not read it.
    */
  lemma AppendOneMeans(schema: Schema, c: Condition, q: Query, s: Statement, row: Row)
    requires PlainFold(row.fold) && ValidQuery(Postgres, q)
    requires StatementSpec(schema, Postgres, |q.args|, c) == Ok(s)
    ensures var q' := AppendOne(q, s);
            && q.args <= q'.args && q.where <= q'.where
            && if Accepts(Postgres, c)
               then ValidQuery(Postgres, q')
                    && (Conjunction(Postgres, q.where, row, q.args).Some? ==>
                          Conjunction(Postgres, q'.where, row, q'.args)
                          == Some(And3(Conjunction(Postgres, q.where, row, q.args).value, Meaning(c, schema, row))))
               else exists i :: 0 <= i < |q'.where| && !ClauseReads(Postgres, q'.where[i])
  {
    var (f, own) := Simplify(schema, Postgres, true, |q.args|, c).value;
    AppendFolded(schema, Postgres, c, q, f, own, row);
    AlwaysTrue(f, row, own);
    NotSkipped(f);
    hide Simplify, Meaning, ValidQuery, Conjunction, Accepts, ClauseReads, StatementText;
    var q' := AppendOne(q, s);
    if !Accepts(Postgres, c) {
      assert q'.where[|q.where|] == InParentheses(StatementText(f));
    }
  }

  lemma And3Associates(a: Tri, b: Tri, c: Tri)
    ensures And3(And3(a, b), c) == And3(a, And3(b, c))
  {
  }

  lemma ValidQueryReads(dialect: Dialect, q: Query, row: Row)
    requires ValidQuery(dialect, q)
    ensures Conjunction(dialect, q.where, row, q.args).Some?
  {
    hide ClauseReads;
    ConjunctionReads(dialect, q.where, row, q.args);
    assert forall i :: 0 <= i < |q.where| ==> ClauseWithin(dialect, q.where[i], |q.args|);
  }

  lemma {:induction false} AppendRunGrows(schema: Schema, dialect: Dialect, filters: seq<Condition>, q: Query)
    ensures var q' := AppendRun(schema, dialect, filters, q).q; q.args <= q'.args && q.where <= q'.where
    decreases |filters|
  {
    hide StatementSpec, InParentheses;
    if filters != [] && StatementSpec(schema, dialect, |q.args|, filters[0]).Ok? {
      AppendRunGrows(schema, dialect, filters[1..],
          AppendOne(q, StatementSpec(schema, dialect, |q.args|, filters[0]).value));
    }
  }

  ghost predicate AllAccepted(dialect: Dialect, filters: seq<Condition>) {
    forall i :: 0 <= i < |filters| ==> Accepts(dialect, filters[i])
  }

  lemma FirstAccepted(dialect: Dialect, filters: seq<Condition>)
    requires filters != []
    ensures AllAccepted(dialect, filters) <==> Accepts(dialect, filters[0]) && AllAccepted(dialect, filters[1..])
  {
    hide Accepts;
    assert filters == [filters[0]] + filters[1..];
  }

  /** A clause that is not read stays in the query. */
  lemma StaysUnread(schema: Schema, dialect: Dialect, filters: seq<Condition>, q: Query, row: Row)
    requires exists i :: 0 <= i < |q.where| && !ClauseReads(dialect, q.where[i])
    ensures var q' := AppendRun(schema, dialect, filters, q).q; Conjunction(dialect, q'.where, row, q'.args).None?
  {
    hide ClauseReads, AppendRun;
    var q' := AppendRun(schema, dialect, filters, q).q;
    AppendRunGrows(schema, dialect, filters, q);
    ConjunctionReads(dialect, q'.where, row, q'.args);
    var i :| 0 <= i < |q.where| && !ClauseReads(dialect, q.where[i]);
    assert q'.where[i] == q.where[i];
  }

  /** Appending any filters to a valid query gives a query that extends it; the database reads it if and
    * only if no filter keeps an empty IN list, and then on every row the clauses together mean the
    * earlier clauses and all the filters.
    */
  lemma {:induction false} AppendMeans(schema: Schema, filters: seq<Condition>, q: Query, q': Query, row: Row)
    requires PlainFold(row.fold) && ValidQuery(Postgres, q)
    requires AppendRun(schema, Postgres, filters, q) == Appended(q', None)
    ensures q.args <= q'.args && q.where <= q'.where
    ensures Conjunction(Postgres, q.where, row, q.args).Some?
    ensures AllAccepted(Postgres, filters) ==> ValidQuery(Postgres, q')
    ensures Conjunction(Postgres, q'.where, row, q'.args)
         == if AllAccepted(Postgres, filters)
            then Some(And3(Conjunction(Postgres, q.where, row, q.args).value, AllMean(filters, schema, row)))
            else None
    decreases |filters|
  {
    hide StatementSpec, Meaning, ValidQuery, AppendOne, Accepts, ClauseReads;
    ValidQueryReads(Postgres, q, row);
    var before := Conjunction(Postgres, q.where, row, q.args).value;
    if filters == [] {
      assert And3(before, True) == before;
    } else {
      var s := StatementSpec(schema, Postgres, |q.args|, filters[0]).value;
      var q1 := AppendOne(q, s);
      AppendOneMeans(schema, filters[0], q, s, row);
      FirstAccepted(Postgres, filters);
      AppendRunGrows(schema, Postgres, filters, q);
      hide AllAccepted;
      if Accepts(Postgres, filters[0]) {
        AppendMeans(schema, filters[1..], q1, q', row);
        And3Associates(before, Meaning(filters[0], schema, row), AllMean(filters[1..], schema, row));
      } else {
        StaysUnread(schema, Postgres, filters[1..], q1, row);
      }
    }
  }
}
