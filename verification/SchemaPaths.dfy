/** Schemas place by place: what a resolved schema keeps, where its references are, and what they lead to. */
module SchemaPaths {
  import opened Wrappers
  import opened SchemaGraph

  datatype Step = Key(k: string) | Index(i: nat)

  /** The value at a path of keys and indices. */
  function Walk(j: Json, path: seq<Step>): Option<Json> {
    if path == [] then Some(j) else
      match (j, path[0])
      case (Obj(m), Key(k)) => if k in m then Walk(m[k], path[1..]) else None
      case (Arr(items), Index(i)) => if i < |items| then Walk(items[i], path[1..]) else None
      case _ => None
  }

  /** A map with a non-empty text under `$ref`. */
  predicate IsReference(j: Json)
  {
    j.Obj? && "$ref" in j.fields && j.fields["$ref"].Str? && j.fields["$ref"].text != ""
  }

  /** The value at a path that does not lead through a reference. */
  function At(j: Json, path: seq<Step>): Option<Json> {
    if path == [] then Some(j)
    else if IsReference(j) then None
    else
      match (j, path[0])
      case (Obj(m), Key(k)) => if k in m then At(m[k], path[1..]) else None
      case (Arr(items), Index(i)) => if i < |items| then At(items[i], path[1..]) else None
      case _ => None
  }

  /** A reference to a component has become the pointer to its definition and nothing else; another map has its
    * keys, a list its length, and anything else is as it was.
    */
  ghost predicate Corresponds(before: Json, after: Json) {
    if IsReference(before) then
      forall name: string :: before.fields["$ref"].text == "#/components/schemas/" + name ==>
        after == Obj(map["$ref" := Str("#/$defs/" + name)])
    else match before
      case Obj(m) => after.Obj? && after.fields.Keys == m.Keys
      case Arr(items) => after.Arr? && |after.items| == |items|
      case _ => after == before
  }

  /** Values that correspond at every place outside references. */
  ghost predicate SameShape(before: Json, after: Json) {
    forall path :: At(before, path).Some? ==>
      Walk(after, path).Some? && Corresponds(At(before, path).value, Walk(after, path).value)
  }

  lemma ReferenceIsRef(m: Schema)
    ensures IsReference(Obj(m)) <==> IsRef(m)
  {
  }

  lemma NameOfReference(name: string)
    ensures ComponentName("#/components/schemas/" + name) == Some(name)
  {
    assert ("#/components/schemas/" + name)[|PREFIX|..] == name;
  }

  lemma CorrespondsHere(j: Json)
    ensures Corresponds(j, Rewrite(j))
  {
    if IsReference(j) {
      forall name: string | j.fields["$ref"].text == "#/components/schemas/" + name
        ensures Rewrite(j) == Obj(map["$ref" := Str("#/$defs/" + name)])
      {
        NameOfReference(name);
      }
    }
  }

  lemma {:induction false} ShapeKept(j: Json, path: seq<Step>)
    requires At(j, path).Some?
    ensures Walk(Rewrite(j), path).Some? && Corresponds(At(j, path).value, Walk(Rewrite(j), path).value)
    decreases |path|
  {
    if path == [] {
      CorrespondsHere(j);
    } else {
      hide Corresponds;
      match (j, path[0])
      case (Obj(m), Key(k)) =>
        ReferenceIsRef(m);
        ShapeKept(m[k], path[1..]);
      case (Arr(items), Index(i)) => ShapeKept(items[i], path[1..]);
    }
  }

  /** Rewriting changes nothing but references. */
  lemma RewriteKeepsShape(j: Json)
    ensures SameShape(j, Rewrite(j))
  {
    hide Corresponds, At, Walk, Rewrite;
    forall path | At(j, path).Some?
      ensures Walk(Rewrite(j), path).Some? && Corresponds(At(j, path).value, Walk(Rewrite(j), path).value)
    {
      ShapeKept(j, path);
    }
  }

  ghost predicate HasNoReference(j: Json) { forall path :: At(j, path).Some? ==> !IsReference(At(j, path).value) }

  lemma PartHasNoReference(j: Json, step: Step, child: Json)
    requires HasNoReference(j) && forall path :: At(j, [step] + path) == At(child, path)
    ensures HasNoReference(child)
  {
    forall path | At(child, path).Some?
      ensures !IsReference(At(child, path).value)
    {
      assert At(j, [step] + path) == At(child, path);
    }
  }

  lemma FirstStep(j: Json, step: Step, path: seq<Step>)
    requires !IsReference(j)
    ensures j.Obj? && step.Key? && step.k in j.fields ==> At(j, [step] + path) == At(j.fields[step.k], path)
    ensures j.Arr? && step.Index? && step.i < |j.items| ==> At(j, [step] + path) == At(j.items[step.i], path)
  {
    assert ([step] + path)[1..] == path;
  }

  /** A value without references is returned unchanged. */
  lemma {:induction false} NoReferenceUnchanged(j: Json)
    requires HasNoReference(j)
    ensures Rewrite(j) == j
    decreases j
  {
    assert At(j, []) == Some(j);
    assert !IsReference(j);
    hide HasNoReference, At, IsReference;
    match j
    case Obj(m) =>
      ReferenceIsRef(m);
      forall k | k in m
        ensures Rewrite(m[k]) == m[k]
      {
        forall path ensures At(j, [Key(k)] + path) == At(m[k], path) { FirstStep(j, Key(k), path); }
        PartHasNoReference(j, Key(k), m[k]);
        NoReferenceUnchanged(m[k]);
      }
      assert RewriteMap(m) == m;
    case Arr(items) =>
      forall i | 0 <= i < |items|
        ensures Rewrite(items[i]) == items[i]
      {
        forall path ensures At(j, [Index(i)] + path) == At(items[i], path) { FirstStep(j, Index(i), path); }
        PartHasNoReference(j, Index(i), items[i]);
        NoReferenceUnchanged(items[i]);
      }
      assert Rewrite(j).items == items;
    case _ =>
  }

  // Where the references are.

  ghost predicate RefersTo(j: Json, ref: string) {
    exists path :: At(j, path).Some? && IsReference(At(j, path).value) && At(j, path).value.fields["$ref"].text == ref
  }

  lemma {:induction false} ReferenceFound(j: Json, path: seq<Step>)
    requires At(j, path).Some? && IsReference(At(j, path).value)
    ensures At(j, path).value.fields["$ref"].text in Refs(j)
    decreases |path|
  {
    if path != [] {
      match (j, path[0])
      case (Obj(m), Key(k)) =>
        ReferenceIsRef(m);
        ReferenceFound(m[k], path[1..]);
      case (Arr(items), Index(i)) => ReferenceFound(items[i], path[1..]);
    }
  }

  lemma {:induction false} ReferencePlace(j: Json, ref: string) returns (path: seq<Step>)
    requires ref in Refs(j)
    ensures At(j, path).Some? && IsReference(At(j, path).value) && At(j, path).value.fields["$ref"].text == ref
    decreases j
  {
    path := [];
    match j
    case Obj(m) =>
      ReferenceIsRef(m);
      if !IsRef(m) {
        var k :| k in m && ref in Refs(m[k]);
        var rest := ReferencePlace(m[k], ref);
        path := [Key(k)] + rest;
        FirstStep(j, Key(k), rest);
      }
    case Arr(items) =>
      var i :| 0 <= i < |items| && ref in Refs(items[i]);
      var rest := ReferencePlace(items[i], ref);
      path := [Index(i)] + rest;
      FirstStep(j, Index(i), rest);
    case _ =>
  }

  /** The references of a value are those at its places. */
  lemma RefsAreAtPlaces(j: Json, ref: string)
    ensures ref in Refs(j) <==> RefersTo(j, ref)
  {
    hide Refs, At;
    if ref in Refs(j) {
      var path := ReferencePlace(j, ref);
    }
    if RefersTo(j, ref) {
      var path :| At(j, path).Some? && IsReference(At(j, path).value) && At(j, path).value.fields["$ref"].text == ref;
      ReferenceFound(j, path);
    }
  }

  // What the references lead to.

  ghost predicate RefersToComponent(j: Json, name: string) { RefersTo(j, "#/components/schemas/" + name) }

  /** A chain of defined components, each referred to by the one before it, the first one by the value. */
  ghost predicate Chain(c: Components, j: Json, chain: seq<string>) {
    && chain != [] && (forall i :: 0 <= i < |chain| ==> chain[i] in c)
    && RefersToComponent(j, chain[0])
    && forall i :: 0 < i < |chain| ==> RefersToComponent(Obj(c[chain[i - 1]]), chain[i])
  }

  ghost predicate LeadsTo(c: Components, j: Json, name: string) {
    exists chain :: Chain(c, j, chain) && chain[|chain| - 1] == name
  }

  lemma NamesAreReferred(c: Components, j: Json, name: string)
    ensures name in Names(c, j) <==> name in c && RefersToComponent(j, name)
  {
    RefsAreAtPlaces(j, "#/components/schemas/" + name);
    NameOfReference(name);
    hide Refs, RefersTo;
    if name in Names(c, j) {
      var r :| r in Refs(j) && Good(c, r) && ComponentName(r).value == name;
      assert r == PREFIX + name;
    }
    if name in c && RefersToComponent(j, name) {
      assert Good(c, "#/components/schemas/" + name);
    }
  }

  lemma {:induction false} ChainReached(c: Components, j: Json, chain: seq<string>)
    requires Chain(c, j, chain)
    ensures chain[|chain| - 1] in Reachable(c, j)
    decreases |chain|
  {
    ReachableIsLeast(c, j, {});
    hide Reachable, RefersToComponent;
    var last := |chain| - 1;
    if last == 0 {
      NamesAreReferred(c, j, chain[0]);
    } else {
      ChainReached(c, j, chain[..last]);
      NamesAreReferred(c, Obj(c[chain[last - 1]]), chain[last]);
    }
  }

  ghost function Led(c: Components, j: Json): set<string> { set n | n in c && LeadsTo(c, j, n) }

  lemma LongerChain(c: Components, j: Json, name: string, next: string)
    requires LeadsTo(c, j, name) && name in c && next in c && RefersToComponent(Obj(c[name]), next)
    ensures LeadsTo(c, j, next)
  {
    hide RefersToComponent;
    var chain :| Chain(c, j, chain) && chain[|chain| - 1] == name;
    var longer := chain + [next];
    assert Chain(c, j, longer) && longer[|longer| - 1] == next;
  }

  lemma LedIsClosed(c: Components, j: Json)
    ensures Names(c, j) <= Led(c, j) && ClosedUnderRefs(c, Led(c, j))
  {
    hide RefersToComponent, Names, LeadsTo;
    forall n | n in Names(c, j)
      ensures n in Led(c, j)
    {
      NamesAreReferred(c, j, n);
      FirstOfChain(c, j, n);
    }
    forall n, next | n in Led(c, j) && next in Names(c, Obj(c[n]))
      ensures next in Led(c, j)
    {
      NamesAreReferred(c, Obj(c[n]), next);
      LongerChain(c, j, n, next);
    }
  }

  lemma FirstOfChain(c: Components, j: Json, name: string)
    requires name in c && RefersToComponent(j, name)
    ensures LeadsTo(c, j, name)
  {
    hide RefersToComponent;
    assert Chain(c, j, [name]) && [name][|[name]| - 1] == name;
  }

  /** The reachable components are those that a chain of references leads to. */
  lemma ReachableIsLed(c: Components, j: Json, name: string)
    ensures name in Reachable(c, j) <==> LeadsTo(c, j, name)
  {
    LedIsClosed(c, j);
    ReachableIsLeast(c, j, Led(c, j));
    hide Reachable, Names;
    if LeadsTo(c, j, name) {
      var chain :| Chain(c, j, chain) && chain[|chain| - 1] == name;
      ChainReached(c, j, chain);
    }
  }

  /** A reference to a defined component. */
  ghost predicate Defined(c: Components, ref: string) {
    exists name :: name in c && ref == "#/components/schemas/" + name
  }

  /** Every reference in the value refers to a defined component. */
  ghost predicate AllDefined(c: Components, j: Json) { forall ref :: RefersTo(j, ref) ==> Defined(c, ref) }

  lemma GoodIsDefined(c: Components, ref: string)
    ensures Good(c, ref) <==> Defined(c, ref)
  {
    if Good(c, ref) {
      assert ref == "#/components/schemas/" + ComponentName(ref).value;
    }
    if Defined(c, ref) {
      var name :| name in c && ref == "#/components/schemas/" + name;
      NameOfReference(name);
    }
  }

  lemma AllGoodIsAllDefined(c: Components, j: Json)
    ensures AllGood(c, j) <==> AllDefined(c, j)
  {
    hide Good, Defined, RefersTo, Refs;
    forall ref
      ensures Good(c, ref) <==> Defined(c, ref)
      ensures ref in Refs(j) <==> RefersTo(j, ref)
    {
      GoodIsDefined(c, ref);
      RefsAreAtPlaces(j, ref);
    }
  }

  /** A value resolves exactly when every reference in it, and in every component that a chain of references
    * leads to, refers to a defined component.
    */
  lemma ResolvableIsDefined(c: Components, j: Json)
    ensures Resolvable(c, j) <==> AllDefined(c, j) && forall n :: n in c && LeadsTo(c, j, n) ==>
            AllDefined(c, Obj(c[n]))
  {
    AllGoodIsAllDefined(c, j);
    forall n | n in c
      ensures n in Reachable(c, j) <==> LeadsTo(c, j, n)
      ensures AllGood(c, Obj(c[n])) <==> AllDefined(c, Obj(c[n]))
    {
      ReachableIsLed(c, j, n);
      AllGoodIsAllDefined(c, Obj(c[n]));
    }
    hide AllGood, AllDefined, LeadsTo;
  }
}
