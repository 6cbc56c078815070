/** SQL boolean text as tokens: printing, and reading with the usual precedence NOT, AND, OR. */
module SqlText {
  import opened Wrappers
  import opened FilterConditions

  /** `$k`, or the positional `?`. */
  datatype Placeholder = Numbered(k: nat) | Mark

  /** An atomic predicate of the SQL text with its placeholders. */
  datatype Predicate =
    | IsTrue(column: string)
    | IsNull(column: string)
    | IsNotNull(column: string)
    | Cmp(column: string, op: CompareOp, ph: Placeholder)
    | InList(column: string, phs: seq<Placeholder>)
    | FoldedLike(column: string, ph: Placeholder)
    | Test(leaf: Leaf, inline: seq<Value>, phs: seq<Placeholder>)

  datatype Token = LParen | RParen | AND | OR | NOT | Atom(p: Predicate) | Never  // `1 = 0`

  /** The syntax tree of a SQL condition. */
  datatype Sql = SAtom(p: Predicate) | SNever | SNot(e: Sql) | SAnd(l: Sql, r: Sql) | SOr(l: Sql, r: Sql)

  /** The text of a tree as the renderer writes it. */
  function Print(t: Sql): (text: seq<Token>)
    ensures text != []
  {
    match t
    case SAtom(p) => [Atom(p)]
    case SNever => [Never]
    case SNot(e) => [NOT, LParen] + Print(e) + [RParen]
    case SAnd(l, r) => [LParen] + Print(l) + [AND] + Print(r) + [RParen]
    case SOr(l, r) => [LParen] + Print(l) + [OR] + Print(r) + [RParen]
  }

  // A reader: or := and (OR and)*, and := not (AND not)*, not := NOT not | primary.

  type Parsed = Option<(Sql, seq<Token>)>

  function ParseNot(ts: seq<Token>): (p: Parsed)
    ensures p.Some? ==> |p.value.1| < |ts|
    decreases |ts|, 1
  {
    if ts != [] && ts[0].NOT? then
      match ParseNot(ts[1..])
      case Some((t, rest)) => Some((SNot(t), rest))
      case None => None
    else ParsePrimary(ts)
  }

  function AndTail(l: Sql, ts: seq<Token>): (p: Parsed)
    ensures p.Some? ==> |p.value.1| <= |ts|
    decreases |ts|, 2
  {
    if ts != [] && ts[0].AND? then
      match ParseNot(ts[1..])
      case Some((r, rest)) => AndTail(SAnd(l, r), rest)
      case None => None
    else Some((l, ts))
  }

  function ParseAnd(ts: seq<Token>): (p: Parsed)
    ensures p.Some? ==> |p.value.1| < |ts|
    decreases |ts|, 3
  {
    match ParseNot(ts)
    case Some((l, rest)) => AndTail(l, rest)
    case None => None
  }

  function OrTail(l: Sql, ts: seq<Token>): (p: Parsed)
    ensures p.Some? ==> |p.value.1| <= |ts|
    decreases |ts|, 4
  {
    if ts != [] && ts[0].OR? then
      match ParseAnd(ts[1..])
      case Some((r, rest)) => OrTail(SOr(l, r), rest)
      case None => None
    else Some((l, ts))
  }

  function ParseOr(ts: seq<Token>): (p: Parsed)
    ensures p.Some? ==> |p.value.1| < |ts|
    decreases |ts|, 5
  {
    match ParseAnd(ts)
    case Some((l, rest)) => OrTail(l, rest)
    case None => None
  }

  function ParsePrimary(ts: seq<Token>): (p: Parsed)
    ensures p.Some? ==> |p.value.1| < |ts|
    decreases |ts|, 0
  {
    if ts == [] then None
    else if ts[0].Atom? then Some((SAtom(ts[0].p), ts[1..]))
    else if ts[0].Never? then Some((SNever, ts[1..]))
    else if ts[0].LParen? then
      match ParseOr(ts[1..])
      case Some((t, rest)) => if rest != [] && rest[0].RParen? then Some((t, rest[1..])) else None
      case None => None
    else None
  }

  function Parse(ts: seq<Token>): Option<Sql> {
    match ParseOr(ts)
    case Some((t, rest)) => if rest == [] then Some(t) else None
    case None => None
  }

  /** No operator follows: the end of the text or a closing parenthesis. */
  predicate Ends(rest: seq<Token>) { rest == [] || rest[0].RParen? }

  lemma ReadToEnd(ts: seq<Token>, t: Sql, rest: seq<Token>)
    requires ParseNot(ts) == Some((t, rest)) && Ends(rest)
    ensures ParseAnd(ts) == Some((t, rest)) && ParseOr(ts) == Some((t, rest))
  {
  }

  lemma ReadParentheses(inner: seq<Token>, t: Sql, rest: seq<Token>)
    requires ParseOr(inner + ([RParen] + rest)) == Some((t, [RParen] + rest))
    ensures ParseNot([LParen] + inner + [RParen] + rest) == Some((t, rest))
  {
    hide ParseOr;
    var ts := [LParen] + inner + [RParen] + rest;
    assert ts[1..] == inner + ([RParen] + rest);
    assert ([RParen] + rest)[1..] == rest;
  }

  lemma ReadInfix(ts: seq<Token>, l: Sql, right: seq<Token>, r: Sql, close: seq<Token>, op: LogicalOp)
    requires ParseNot(ts) == Some((l, [if op.And? then AND else OR] + right))
    requires ParseNot(right) == Some((r, close)) && Ends(close)
    ensures ParseOr(ts) == Some((if op.And? then SAnd(l, r) else SOr(l, r), close))
  {
    hide ParseNot;
    var tail := [if op.And? then AND else OR] + right;
    assert tail[1..] == right;
    if op.And? {
      assert AndTail(l, tail) == AndTail(SAnd(l, r), close) == Some((SAnd(l, r), close));
    } else {
      assert ParseAnd(right) == Some((r, close));
      assert ParseAnd(ts) == Some((l, tail));
      assert OrTail(l, tail) == OrTail(SOr(l, r), close);
    }
  }

  lemma {:induction false} ReadPrintedInfix(l: Sql, r: Sql, op: LogicalOp, rest: seq<Token>)
    ensures var t := if op.And? then SAnd(l, r) else SOr(l, r);
            ParseNot(Print(t) + rest) == Some((t, rest))
    decreases if op.And? then SAnd(l, r) else SOr(l, r), 0
  {
    hide ParseNot, ParseOr;
    var t := if op.And? then SAnd(l, r) else SOr(l, r);
    var close := [RParen] + rest;
    var infix := [if op.And? then AND else OR];
    var right := Print(r) + close;
    ReadPrinted(l, infix + right);
    ReadPrinted(r, close);
    var inner := Print(l) + infix + Print(r);
    assert Print(l) + (infix + right) == inner + close;
    ReadInfix(inner + close, l, right, r, close, op);
    ReadParentheses(inner, t, rest);
    assert Print(t) + rest == [LParen] + inner + [RParen] + rest;
  }

  /** Printed text binds at least as tightly as NOT, whatever follows it. */
  lemma {:induction false} ReadPrinted(t: Sql, rest: seq<Token>)
    ensures ParseNot(Print(t) + rest) == Some((t, rest))
    decreases t
  {
    if t.SAtom? || t.SNever? {
      assert (Print(t) + rest)[1..] == rest;
    } else if t.SNot? {
      var close := [RParen] + rest;
      ReadPrinted(t.e, close);
      ReadToEnd(Print(t.e) + close, t.e, close);
      ReadParentheses(Print(t.e), t.e, rest);
      assert (Print(t) + rest)[1..] == [LParen] + Print(t.e) + [RParen] + rest;
    } else {
      ReadPrintedInfix(t.l, t.r, if t.SAnd? then And else Or, rest);
    }
  }

  /** Reading printed text gives the tree back. */
  lemma ParsePrint(t: Sql)
    ensures Parse(Print(t)) == Some(t)
  {
    ReadPrinted(t, []);
    assert Print(t) + [] == Print(t);
    ReadToEnd(Print(t), t, []);
  }
}
