/** The set operations of `internal/filter/parser.go`, desugared to membership and size conditions. */
module FilterSets {
  import opened Wrappers
  import opened FilterConditions

  datatype SetFunction = SetsContains | SetsIntersects | SetsEquivalent

  function Membership(field: string, s: string): Condition { LeafCondition(Element(field), [Text(s)]) }

  function SizeEquals(field: string, n: nat): Condition { LeafCondition(Size(field, Eq), [Num(n)]) }

  function Elements(s: seq<string>): set<string> { set x | x in s }

  lemma ElementsAppend(s: seq<string>, x: string)
    ensures Elements(s + [x]) == Elements(s) + {x}
  {
  }

  lemma ElementsSubset(a: seq<string>, b: seq<string>)
    ensures Elements(a) <= Elements(b) <==> forall v :: v in a ==> v in b
  {
    assert forall v :: v in a <==> v in Elements(a);
    assert forall v :: v in b <==> v in Elements(b);
  }

  ghost predicate Distinct(s: seq<string>) { forall i, j :: 0 <= i < j < |s| ==> s[i] != s[j] }

  /** The row's list field holds `tags`, and membership and size test it exactly. */
  ghost predicate HasTags(row: Row, field: string, tags: seq<string>) {
    && (forall s: string :: row.leaf(Element(field), [Text(s)]) == OfBool(s in tags))
    && (forall n: nat :: row.leaf(Size(field, Eq), [Num(n)]) == OfBool(|tags| == n))
  }

  /** `distinctStrings`: the first occurrences, in order. */
  function FirstOccurrences(values: seq<string>): seq<string> {
    if values == [] then [] else
      var init, last := values[..|values| - 1], values[|values| - 1];
      FirstOccurrences(init) + if last in init then [] else [last]
  }

  lemma {:induction false} FirstOccurrencesExact(values: seq<string>)
    ensures Distinct(FirstOccurrences(values)) && Elements(FirstOccurrences(values)) == Elements(values)
    ensures values != [] ==> FirstOccurrences(values) != []
  {
    if values != [] {
      var init, last := values[..|values| - 1], values[|values| - 1];
      FirstOccurrencesExact(init);
      assert values == init + [last];
      ElementsAppend(init, last);
      ElementsAppend(FirstOccurrences(init), last);
      assert last in init <==> last in Elements(init);
      assert FirstOccurrences(init) + [] == FirstOccurrences(init);
    }
  }

  method DistinctStrings(values: seq<string>) returns (out: seq<string>)
    ensures out == FirstOccurrences(values)
    ensures Distinct(out) && Elements(out) == Elements(values)
  {
    var seen: set<string> := {};
    out := [];
    for i := 0 to |values|
      invariant out == FirstOccurrences(values[..i]) && seen == Elements(values[..i])
    {
      var v := values[i];
      assert values[..i + 1][..i] == values[..i] && values[..i + 1] == values[..i] + [v];
      ElementsAppend(values[..i], v);
      assert v in seen <==> v in values[..i];
      if v !in seen {
        seen := seen + {v};
        out := out + [v];
      }
    }
    assert values[..|values|] == values;
    FirstOccurrencesExact(values);
  }

  function MapMembership(field: string, values: seq<string>): seq<Condition> {
    seq(|values|, i requires 0 <= i < |values| => Membership(field, values[i]))
  }

  /** `combineConditions`: a left-leaning chain. */
  function Chain(op: LogicalOp, conds: seq<Condition>): Condition
    requires conds != []
  {
    if |conds| == 1 then conds[0] else Logical(op, Chain(op, conds[..|conds| - 1]), conds[|conds| - 1])
  }

  method CombineConditions(op: LogicalOp, conds: seq<Condition>) returns (result: Condition)
    requires conds != []
    ensures result == Chain(op, conds)
  {
    result := conds[0];
    for i := 1 to |conds|
      invariant result == Chain(op, conds[..i])
    {
      assert conds[..i + 1][..i] == conds[..i];
      result := Logical(op, result, conds[i]);
    }
    assert conds[..|conds|] == conds;
  }

  function Desugared(f: SetFunction, field: string, values: seq<string>): Condition {
    match f
    case SetsContains => if values == [] then Constant(true) else Chain(And, MapMembership(field, values))
    case SetsIntersects => if values == [] then Constant(false) else Chain(Or, MapMembership(field, values))
    case SetsEquivalent =>
      var distinct := FirstOccurrences(values);
      if distinct == [] then SizeEquals(field, 0)
      else Logical(And, Chain(And, MapMembership(field, distinct)), SizeEquals(field, |distinct|))
  }

  datatype SetError = UnknownField | NotAList | NotAString

  predicate AllText(elements: seq<Value>) { forall i :: 0 <= i < |elements| ==> elements[i].Text? }

  function Texts(elements: seq<Value>): seq<string>
    requires AllText(elements)
  {
    seq(|elements|, i requires 0 <= i < |elements| => elements[i].text)
  }

  method MapConditions(field: string, values: seq<string>) returns (conds: seq<Condition>)
    ensures conds == MapMembership(field, values)
  {
    conds := [];
    for i := 0 to |values|
      invariant conds == MapMembership(field, values[..i])
    {
      conds := conds + [Membership(field, values[i])];
    }
    assert values[..|values|] == values;
  }

  /** The three cases of `buildSetCondition`. */
  method Desugar(f: SetFunction, field: string, values: seq<string>) returns (c: Condition)
    ensures c == Desugared(f, field, values)
  {
    var conds: seq<Condition>;
    match f
    case SetsContains =>
      if |values| == 0 {
        return Constant(true);
      }
      conds := MapConditions(field, values);
      c := CombineConditions(And, conds);
    case SetsIntersects =>
      if |values| == 0 {
        return Constant(false);
      }
      conds := MapConditions(field, values);
      c := CombineConditions(Or, conds);
    case SetsEquivalent =>
      var distinct := DistinctStrings(values);
      if |distinct| == 0 {
        return SizeEquals(field, 0);
      }
      conds := MapConditions(field, distinct);
      var contains := CombineConditions(And, conds);
      c := Logical(And, contains, SizeEquals(field, |distinct|));
  }

  /** `buildSetCondition` on the literal list of the second argument. */
  method BuildSetCondition(f: SetFunction, schema: Schema, field: string, elements: seq<Value>)
    returns (c: Result<Condition, SetError>)
    ensures c == if field !in schema then Err(UnknownField)
                 else if !schema[field].kind.JSONListKind? then Err(NotAList)
                 else if !AllText(elements) then Err(NotAString)
                 else Ok(Desugared(f, field, Texts(elements)))
  {
    if field !in schema {
      return Err(UnknownField);
    }
    if !schema[field].kind.JSONListKind? {
      return Err(NotAList);
    }
    var values: seq<string> := [];
    for i := 0 to |elements|
      invariant AllText(elements[..i]) && values == Texts(elements[..i])
    {
      if !elements[i].Text? {
        return Err(NotAString);
      }
      values := values + [elements[i].text];
    }
    assert elements[..|elements|] == elements;
    hide AllText, Texts;
    var desugared := Desugar(f, field, values);
    return Ok(desugared);
  }

  lemma MembershipMeans(field: string, s: string, schema: Schema, row: Row, tags: seq<string>)
    requires HasTags(row, field, tags)
    ensures Meaning(Membership(field, s), schema, row) == OfBool(s in tags)
  {
  }

  /** All of the values, or some, are tags. */
  ghost predicate TagsHold(op: LogicalOp, values: seq<string>, tags: seq<string>) {
    if op.And? then forall v :: v in values ==> v in tags else exists v :: v in values && v in tags
  }

  lemma OneMoreTag(op: LogicalOp, init: seq<string>, last: string, tags: seq<string>)
    ensures TagsHold(op, init + [last], tags)
       <==> if op.And? then TagsHold(op, init, tags) && last in tags else TagsHold(op, init, tags) || last in tags
  {
  }

  /** A chain of memberships says that all, or some, of the values are tags. */
  lemma {:induction false} ChainMeans(op: LogicalOp, field: string, values: seq<string>, schema: Schema, row: Row,
                                      tags: seq<string>)
    requires values != [] && HasTags(row, field, tags)
    ensures Meaning(Chain(op, MapMembership(field, values)), schema, row) == OfBool(TagsHold(op, values, tags))
  {
    var conds := MapMembership(field, values);
    var init, last := values[..|values| - 1], values[|values| - 1];
    hide LeafMeaning, HasTags;
    MembershipMeans(field, last, schema, row, tags);
    if |values| == 1 {
      assert values == [last];
    } else {
      assert conds[..|conds| - 1] == MapMembership(field, init);
      ChainMeans(op, field, init, schema, row, tags);
      assert values == init + [last];
      OneMoreTag(op, init, last, tags);
      hide TagsHold;
    }
  }

  lemma {:induction false} DistinctSize(s: seq<string>)
    requires Distinct(s)
    ensures |Elements(s)| == |s|
  {
    if s == [] {
      assert Elements(s) == {};
    } else {
      DistinctSize(s[1..]);
      assert s == [s[0]] + s[1..];
      assert Elements(s) == {s[0]} + Elements(s[1..]);
      assert s[0] !in s[1..];
    }
  }

  lemma SubsetOfSameSize(a: set<string>, b: set<string>)
    requires a <= b && |a| == |b|
    ensures a == b
  {
    assert |b - a| == |b| - |a|;
  }

  lemma EquivalentMeans(field: string, values: seq<string>, schema: Schema, row: Row, tags: seq<string>)
    requires values != [] && HasTags(row, field, tags) && Distinct(tags)
    ensures Meaning(Desugared(SetsEquivalent, field, values), schema, row) == OfBool(Elements(values) == Elements(tags))
  {
    var distinct := FirstOccurrences(values);
    FirstOccurrencesExact(values);
    ChainMeans(And, field, distinct, schema, row, tags);
    DistinctSize(distinct);
    DistinctSize(tags);
    ElementsSubset(distinct, tags);
    assert Meaning(SizeEquals(field, |distinct|), schema, row) == OfBool(|tags| == |distinct|);
    hide Elements, FirstOccurrences, Distinct, Chain, MapMembership, HasTags;
    if Elements(distinct) <= Elements(tags) && |tags| == |distinct| {
      SubsetOfSameSize(Elements(distinct), Elements(tags));
    }
  }

  /** On a duplicate-free tag list, each desugared operation holds exactly when the literal set is a
    * subset of, meets, or equals the tag set, whatever repeats the literal list has.
    */
  lemma SetConditionMeans(f: SetFunction, field: string, values: seq<string>, schema: Schema, row: Row,
                          tags: seq<string>)
    requires HasTags(row, field, tags) && Distinct(tags)
    ensures Meaning(Desugared(f, field, values), schema, row) == OfBool(
              match f
              case SetsContains => Elements(values) <= Elements(tags)
              case SetsIntersects => Elements(values) * Elements(tags) != {}
              case SetsEquivalent => Elements(values) == Elements(tags))
  {
    if values == [] {
      if f.SetsEquivalent? {
        DistinctSize(tags);
        assert |tags| == 0 <==> Elements(tags) == {};
      }
    } else if f.SetsContains? {
      ChainMeans(And, field, values, schema, row, tags);
      ElementsSubset(values, tags);
    } else if f.SetsIntersects? {
      ChainMeans(Or, field, values, schema, row, tags);
      if v :| v in values && v in tags {
        assert v in Elements(values) * Elements(tags);
      }
    } else {
      EquivalentMeans(field, values, schema, row, tags);
    }
  }

  /** The distinct strings are in the order in which they first occur. */
  lemma {:induction false} FirstInOrder(values: seq<string>, i: nat, j: nat)
    requires i < j < |FirstOccurrences(values)|
    ensures exists a, b :: 0 <= a < b < |values| && values[a] == FirstOccurrences(values)[i]
                           && values[b] == FirstOccurrences(values)[j] && values[b] !in values[..b]
  {
    var init, last := values[..|values| - 1], values[|values| - 1];
    var out := FirstOccurrences(init);
    if j < |out| {
      FirstInOrder(init, i, j);
      var a, b :| 0 <= a < b < |init| && init[a] == out[i] && init[b] == out[j] && init[b] !in init[..b];
      assert values[..b] == init[..b];
    } else {
      FirstOccurrencesExact(init);
      assert out[i] in Elements(out);
      var a :| 0 <= a < |init| && init[a] == out[i];
      assert values[a] == out[i] && values[..|values| - 1] == init;
    }
  }

  /** Three conditions are combined as `(a op b) op c`. */
  lemma LeftLeaning(op: LogicalOp, a: Condition, b: Condition, c: Condition)
    ensures Chain(op, [a, b, c]) == Logical(op, Logical(op, a, b), c)
  {
    assert [a, b, c][..2] == [a, b] && [a, b][..1] == [a];
    assert Chain(op, [a, b]) == Logical(op, Chain(op, [a]), b);
  }
}
