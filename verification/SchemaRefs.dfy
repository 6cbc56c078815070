/** The reference resolver of `server/router/mcp/openapi.go`: a depth-first walk that fills a shared
  * map of definitions, with placeholders for components that are still being resolved.
  */
module SchemaRefs {
  import opened Wrappers
  import opened SchemaGraph
  import opened SchemaPaths

  datatype ResolveError = UnsupportedRef(ref: string) | NotFound(name: string)

  type Defs = map<string, Json>

  /** A definition whose component is still being resolved. */
  const PLACEHOLDER := Obj(map[])

  /** All references of the value are good and already have definitions. */
  ghost predicate Covered(c: Components, j: Json, defs: Defs) {
    AllGood(c, j) && Names(c, j) <= defs.Keys
  }

  ghost predicate Complete(c: Components, inlined: Option<string>, n: string, defs: Defs)
    requires n in defs && n in c
  {
    if inlined == Some(n) then defs[n] == PLACEHOLDER
    else defs[n] == Obj(RewriteMap(c[n])) && Covered(c, Obj(c[n]), defs)
  }

  /** What a walk may do to the definitions: new ones come from `within`, are rewritten components, and
    * have all their references covered. The component that is inlined at the top keeps a placeholder.
    */
  ghost predicate Grown(c: Components, inlined: Option<string>, before: Defs, defs: Defs, within: set<string>) {
    && before.Keys <= defs.Keys <= before.Keys + within
    && (forall n :: n in before ==> defs[n] == before[n])
    && (forall n :: n in defs && n !in before ==> n in c && Complete(c, inlined, n, defs))
  }

  /** Only the inlined component can be in progress without a definition. */
  ghost predicate InProgress(c: Components, inlined: Option<string>, defs: Defs, resolving: set<string>) {
    && defs.Keys <= c.Keys
    && (forall n :: n in resolving ==> n in defs || inlined == Some(n))
    && (inlined.Some? ==> inlined.value in resolving)
  }

  /** Some reference in the value, or in a component among `within`, is malformed or undefined. */
  ghost predicate Broken(c: Components, j: Json, within: set<string>) {
    !AllGood(c, j) || exists n :: n in within && n in c && !AllGood(c, Obj(c[n]))
  }

  /** The names a walk over `j` may add: closed, and holding everything that `j` refers to. */
  ghost predicate Bounds(c: Components, j: Json, within: set<string>) {
    Names(c, j) <= within && ClosedUnderRefs(c, within)
  }

  lemma GrownSame(c: Components, inlined: Option<string>, defs: Defs, within: set<string>)
    ensures Grown(c, inlined, defs, defs, within)
  {
  }

  lemma CoveredLater(c: Components, j: Json, a: Defs, b: Defs)
    requires Covered(c, j, a) && a.Keys <= b.Keys
    ensures Covered(c, j, b)
  {
  }

  lemma GrownTwice(c: Components, inlined: Option<string>, a: Defs, b: Defs, d: Defs, within: set<string>)
    requires Grown(c, inlined, a, b, within) && Grown(c, inlined, b, d, within)
    ensures Grown(c, inlined, a, d, within)
  {
  }

  lemma LeftShrinks(all: set<string>, a: set<string>, b: set<string>)
    requires a <= b
    ensures |all - b| <= |all - a|
    ensures forall n :: n in all && n in b && n !in a ==> |all - b| < |all - a|
  {
    assert all - a == (all - b) + (all * (b - a));
    forall n | n in all && n in b && n !in a
      ensures |all - b| < |all - a|
    {
      assert n in all * (b - a);
    }
  }

  ghost function Left(c: Components, defs: Defs): nat { |c.Keys - defs.Keys| }

  lemma GrownLeft(c: Components, inlined: Option<string>, a: Defs, b: Defs, within: set<string>)
    requires Grown(c, inlined, a, b, within)
    ensures Left(c, b) <= Left(c, a)
  {
    LeftShrinks(c.Keys, a.Keys, b.Keys);
  }

  lemma FewerNames(c: Components, defs: Defs, name: string)
    requires name in c && name !in defs
    ensures Left(c, defs[name := PLACEHOLDER]) < Left(c, defs)
  {
    LeftShrinks(c.Keys, defs.Keys, defs[name := PLACEHOLDER].Keys);
  }

  // Parts of a value.

  lemma ItemPart(c: Components, items: seq<Json>, i: nat, within: set<string>)
    requires i < |items|
    ensures Bounds(c, Arr(items), within) ==> Bounds(c, items[i], within)
    ensures Broken(c, items[i], within) ==> Broken(c, Arr(items), within)
  {
  }

  /** The state of the walk over a list after `i` items. */
  ghost predicate ItemsSoFar(c: Components, inlined: Option<string>, defs0: Defs, defs: Defs, items: seq<Json>, i: nat,
                             within: set<string>)
    requires i <= |items|
  {
    Grown(c, inlined, defs0, defs, within) && forall k :: 0 <= k < i ==> Covered(c, items[k], defs)
  }

  lemma NoItem(c: Components, inlined: Option<string>, defs: Defs, items: seq<Json>, within: set<string>)
    ensures ItemsSoFar(c, inlined, defs, defs, items, 0, within)
  {
  }

  lemma NextItem(c: Components, inlined: Option<string>, defs0: Defs, mid: Defs, defs: Defs, items: seq<Json>, i: nat,
                 within: set<string>)
    requires i < |items| && ItemsSoFar(c, inlined, defs0, mid, items, i, within)
    requires Grown(c, inlined, mid, defs, within) && Covered(c, items[i], defs)
    ensures ItemsSoFar(c, inlined, defs0, defs, items, i + 1, within)
  {
    GrownTwice(c, inlined, defs0, mid, defs, within);
    assert mid.Keys <= defs.Keys;
    hide Grown, Covered;
    forall k | 0 <= k < i ensures Covered(c, items[k], defs) {
      CoveredLater(c, items[k], mid, defs);
    }
  }

  /** The state of the walk over a map after the keys `done`. */
  ghost predicate FieldsSoFar(c: Components, inlined: Option<string>, defs0: Defs, defs: Defs, m: Schema,
                              done: set<string>, within: set<string>)
    requires done <= m.Keys
  {
    Grown(c, inlined, defs0, defs, within) && forall k :: k in done ==> Covered(c, m[k], defs)
  }

  lemma NextField(c: Components, inlined: Option<string>, defs0: Defs, mid: Defs, defs: Defs, m: Schema,
                  done: set<string>, key: string, within: set<string>)
    requires done <= m.Keys && key in m && FieldsSoFar(c, inlined, defs0, mid, m, done, within)
    requires Grown(c, inlined, mid, defs, within) && Covered(c, m[key], defs)
    ensures FieldsSoFar(c, inlined, defs0, defs, m, done + {key}, within)
  {
    GrownTwice(c, inlined, defs0, mid, defs, within);
    assert mid.Keys <= defs.Keys;
    hide Grown, Covered;
    forall k | k in done ensures Covered(c, m[k], defs) {
      CoveredLater(c, m[k], mid, defs);
    }
  }

  /** The fields outside `left` are rewritten, and no others are there yet. */
  ghost predicate RewrittenSoFar(m: Schema, resolved: Schema, left: set<string>) {
    left <= m.Keys && resolved.Keys == m.Keys - left && forall k :: k in resolved ==> resolved[k] == Rewrite(m[k])
  }

  lemma RewriteNext(m: Schema, resolved: Schema, left: set<string>, key: string)
    requires RewrittenSoFar(m, resolved, left) && key in left
    ensures key in m && RewrittenSoFar(m, resolved[key := Rewrite(m[key])], left - {key})
    ensures m.Keys - left + {key} == m.Keys - (left - {key})
  {
  }

  lemma NoField(c: Components, inlined: Option<string>, defs: Defs, m: Schema, within: set<string>)
    ensures FieldsSoFar(c, inlined, defs, defs, m, m.Keys - m.Keys, within) && RewrittenSoFar(m, map[], m.Keys)
  {
  }

  lemma MemberPart(c: Components, name: string, within: set<string>)
    requires ClosedUnderRefs(c, within) && name in within
    ensures name in c && Bounds(c, Obj(c[name]), within)
    ensures Broken(c, Obj(c[name]), within) ==> Broken(c, Arr([]), within)
  {
  }

  lemma FieldPart(c: Components, m: Schema, k: string, within: set<string>)
    requires k in m && !IsRef(m)
    ensures Bounds(c, Obj(m), within) ==> Bounds(c, m[k], within)
    ensures Broken(c, m[k], within) ==> Broken(c, Obj(m), within)
  {
  }

  /** A reference is the single edge to its component. */
  lemma ReferencePart(c: Components, m: Schema, name: Option<string>, within: set<string>)
    requires IsRef(m) && name == ComponentName(m[REF].text)
    ensures Refs(Obj(m)) == {m[REF].text}
    ensures AllGood(c, Obj(m)) <==> name.Some? && name.value in c
    ensures Names(c, Obj(m)) == if name.Some? && name.value in c then {name.value} else {}
  {
  }

  ghost predicate Ready(c: Components, inlined: Option<string>, defs: Defs, resolving: set<string>, j: Json,
                        within: set<string>) {
    InProgress(c, inlined, defs, resolving) && Bounds(c, j, within)
  }

  /** What a successful walk over `j` leaves. */
  ghost predicate Walked(c: Components, inlined: Option<string>, j: Json, defs0: Defs, defs: Defs,
                         resolving: set<string>, within: set<string>) {
    && InProgress(c, inlined, defs, resolving)
    && Grown(c, inlined, defs0, defs, within) && Covered(c, j, defs)
  }

  /** The definitions of a finished walk over `target`: rewritten components, closed under references. */
  ghost predicate Finished(c: Components, target: Schema, defs: Defs, within: set<string>) {
    && defs.Keys <= within && Covered(c, Obj(target), defs)
    && forall n :: n in defs ==> n in c && defs[n] == Obj(RewriteMap(c[n])) && Covered(c, Obj(c[n]), defs)
  }

  lemma FinishInlined(c: Components, name: string, defs: Defs, within: set<string>)
    requires name in c && Grown(c, Some(name), map[], defs, within) && Covered(c, Obj(c[name]), defs)
    ensures Finished(c, c[name], if name in defs then defs[name := Obj(RewriteMap(c[name]))] else defs, within)
  {
  }

  lemma EnterDef(c: Components, inlined: Option<string>, defs: Defs, resolving: set<string>, name: string)
    requires InProgress(c, inlined, defs, resolving) && name in c && name !in resolving
    ensures InProgress(c, inlined, defs[name := PLACEHOLDER], resolving + {name}) && inlined != Some(name)
    ensures resolving + {name} - {name} == resolving
  {
  }

  lemma LeaveDef(c: Components, inlined: Option<string>, mid: Defs, defs: Defs, resolving: set<string>, name: string,
                 final: Json, within: set<string>)
    requires InProgress(c, inlined, defs, resolving) && Grown(c, inlined, mid, defs, within) && name in mid
             && inlined != Some(name)
    ensures InProgress(c, inlined, defs[name := final], resolving - {name})
  {
  }

  lemma ItemsDone(c: Components, inlined: Option<string>, defs0: Defs, defs: Defs, items: seq<Json>,
                  within: set<string>)
    requires ItemsSoFar(c, inlined, defs0, defs, items, |items|, within)
    ensures Grown(c, inlined, defs0, defs, within) && Covered(c, Arr(items), defs)
  {
  }

  lemma FieldsDone(c: Components, inlined: Option<string>, defs0: Defs, defs: Defs, m: Schema, within: set<string>)
    requires !IsRef(m) && FieldsSoFar(c, inlined, defs0, defs, m, m.Keys, within)
    ensures Grown(c, inlined, defs0, defs, within) && Covered(c, Obj(m), defs)
  {
  }

  lemma RewriteItems(items: seq<Json>, resolved: seq<Json>)
    requires |resolved| == |items| && forall k :: 0 <= k < |items| ==> resolved[k] == Rewrite(items[k])
    ensures Arr(resolved) == Rewrite(Arr(items))
  {
  }

  lemma NoneLeft(m: Schema, resolved: Schema)
    requires !IsRef(m) && RewrittenSoFar(m, resolved, {})
    ensures resolved == RewriteMap(m) && m.Keys - {} == m.Keys
  {
  }

  /** A reference back to the inlined component leaves its placeholder. */
  lemma OnlyPlaceholder(c: Components, inlined: Option<string>, before: Defs, resolving: set<string>, name: string,
                        within: set<string>)
    requires InProgress(c, inlined, before, resolving) && name in resolving && name in c && name in within
             && name !in before
    ensures Grown(c, inlined, before, before[name := PLACEHOLDER], within)
    ensures InProgress(c, inlined, before[name := PLACEHOLDER], resolving)
  {
  }

  /** Filling in the placeholder after the walk over its component. */
  lemma GrownAround(c: Components, inlined: Option<string>, before: Defs, mid: Defs, defs: Defs, name: string,
                    within: set<string>)
    requires name in c && name in within && name !in before && inlined != Some(name)
    requires mid == before[name := PLACEHOLDER]
    requires Grown(c, inlined, mid, defs, within) && Covered(c, Obj(c[name]), defs)
    ensures Grown(c, inlined, before, defs[name := Obj(RewriteMap(c[name]))], within)
  {
    hide RewriteMap;
    var filled := defs[name := Obj(RewriteMap(c[name]))];
    assert filled.Keys == defs.Keys;
    forall n | n in filled && n !in before
      ensures n in c && Complete(c, inlined, n, filled)
    {
      if n != name && inlined != Some(n) {
        CoveredLater(c, Obj(c[n]), defs, filled);
      }
      if n == name {
        CoveredLater(c, Obj(c[n]), defs, filled);
      }
    }
  }

  class Resolver {
    const components: Components
    var defs: Defs
    var resolving: set<string>
    /** The component that is resolved in place of the top-level reference, if any. */
    ghost const inlined: Option<string>

    constructor (components: Components, ghost inlined: Option<string>)
      ensures this.components == components && this.inlined == inlined && defs == map[] && resolving == {}
    {
      this.components, this.inlined := components, inlined;
      defs, resolving := map[], {};
    }

    /** `resolveSchemaValue` below the top level. */
    method ResolveValue(value: Json, ghost within: set<string>) returns (r: Result<Json, ResolveError>)
      requires Ready(components, inlined, defs, resolving, value, within)
      modifies this
      ensures r.Ok? ==> r.value == Rewrite(value) && resolving == old(resolving)
      ensures r.Ok? ==> Walked(components, inlined, value, old(defs), defs, resolving, within)
      ensures r.Err? ==> Broken(components, value, within)
      decreases Left(components, defs), 1, value, 2
    {
      match value
      case Obj(m) =>
        var resolved := ResolveMap(m, within);
        r := if resolved.Ok? then Ok(Obj(resolved.value)) else Err(resolved.error);
      case Arr(items) =>
        r := ResolveItems(items, within);
      case _ =>
        GrownSame(components, inlined, defs, within);
        r := Ok(value);
    }

    method ResolveItems(items: seq<Json>, ghost within: set<string>) returns (r: Result<Json, ResolveError>)
      requires Ready(components, inlined, defs, resolving, Arr(items), within)
      modifies this
      ensures r.Ok? ==> r.value == Rewrite(Arr(items)) && resolving == old(resolving)
      ensures r.Ok? ==> Walked(components, inlined, Arr(items), old(defs), defs, resolving, within)
      ensures r.Err? ==> Broken(components, Arr(items), within)
      decreases Left(components, defs), 1, Arr(items), 0
    {
      var resolved: seq<Json> := [];
      ghost var defs0 := defs;
      hide Covered, Bounds, Broken, Grown, InProgress, ItemsSoFar, Rewrite, ClosedUnderRefs, Complete, Left;
      NoItem(components, inlined, defs, items, within);
      for i := 0 to |items|
        invariant |resolved| == i && forall k :: 0 <= k < i ==> resolved[k] == Rewrite(items[k])
        invariant InProgress(components, inlined, defs, resolving) && resolving == old(resolving)
        invariant ItemsSoFar(components, inlined, defs0, defs, items, i, within)
                  && Left(components, defs) <= Left(components, defs0)
      {
        ghost var mid := defs;
        ItemPart(components, items, i, within);
        var item := ResolveValue(items[i], within);
        if item.Err? {
          return Err(item.error);
        }
        resolved := resolved + [item.value];
        GrownLeft(components, inlined, mid, defs, within);
        NextItem(components, inlined, defs0, mid, defs, items, i, within);
      }
      ItemsDone(components, inlined, defs0, defs, items, within);
      RewriteItems(items, resolved);
      r := Ok(Arr(resolved));
    }

    /** `resolveSchemaMap` below the top level. Keys are visited in an arbitrary order. */
    method ResolveMap(schema: Schema, ghost within: set<string>) returns (r: Result<Schema, ResolveError>)
      requires Ready(components, inlined, defs, resolving, Obj(schema), within)
      modifies this
      ensures r.Ok? ==> r.value == RewriteMap(schema) && resolving == old(resolving)
      ensures r.Ok? ==> Walked(components, inlined, Obj(schema), old(defs), defs, resolving, within)
      ensures r.Err? ==> Broken(components, Obj(schema), within)
      decreases Left(components, defs), 1, Obj(schema), 1
    {
      if IsRef(schema) {
        r := ResolveRef(schema, within);
      } else {
        r := ResolveFields(schema, within);
      }
    }

    method ResolveRef(schema: Schema, ghost within: set<string>) returns (r: Result<Schema, ResolveError>)
      requires IsRef(schema) && Ready(components, inlined, defs, resolving, Obj(schema), within)
      modifies this
      ensures r.Ok? ==> r.value == RewriteMap(schema) && resolving == old(resolving)
      ensures r.Ok? ==> Walked(components, inlined, Obj(schema), old(defs), defs, resolving, within)
      ensures r.Err? ==> Broken(components, Obj(schema), within)
      decreases Left(components, defs), 1, Obj(schema), 0
    {
      var name := ComponentName(schema[REF].text);
      ReferencePart(components, schema, name, within);
      if name.None? {
        return Err(UnsupportedRef(schema[REF].text));
      }
      hide Grown, InProgress, Refs, ClosedUnderRefs, Left;
      var failed := AddSchemaDef(name.value, within);
      if failed.Some? {
        return Err(failed.value);
      }
      r := Ok(Pointer(name.value));
    }

    method ResolveFields(schema: Schema, ghost within: set<string>) returns (r: Result<Schema, ResolveError>)
      requires !IsRef(schema) && Ready(components, inlined, defs, resolving, Obj(schema), within)
      modifies this
      ensures r.Ok? ==> r.value == RewriteMap(schema) && resolving == old(resolving)
      ensures r.Ok? ==> Walked(components, inlined, Obj(schema), old(defs), defs, resolving, within)
      ensures r.Err? ==> Broken(components, Obj(schema), within)
      decreases Left(components, defs), 1, Obj(schema), 0
    {
      var resolved: Schema := map[];
      var left := schema.Keys;
      ghost var defs0 := defs;
      hide Covered, Bounds, Broken, IsRef, Grown, RewrittenSoFar, InProgress, FieldsSoFar, Rewrite, RewriteMap,
          ClosedUnderRefs, Complete, Left;
      NoField(components, inlined, defs, schema, within);
      while left != {}
        invariant RewrittenSoFar(schema, resolved, left)
        invariant InProgress(components, inlined, defs, resolving) && resolving == old(resolving)
        invariant FieldsSoFar(components, inlined, defs0, defs, schema, schema.Keys - left, within)
        invariant Left(components, defs) <= Left(components, defs0)
      {
        ghost var mid := defs;
        var key :| key in left;
        RewriteNext(schema, resolved, left, key);
        FieldPart(components, schema, key, within);
        var value := ResolveValue(schema[key], within);
        if value.Err? {
          return Err(value.error);
        }
        GrownLeft(components, inlined, mid, defs, within);
        NextField(components, inlined, defs0, mid, defs, schema, schema.Keys - left, key, within);
        resolved := resolved[key := value.value];
        left := left - {key};
      }
      NoneLeft(schema, resolved);
      FieldsDone(components, inlined, defs0, defs, schema, within);
      r := Ok(resolved);
    }

    /** `addSchemaDef` */
    method AddSchemaDef(name: string, ghost within: set<string>) returns (failed: Option<ResolveError>)
      requires InProgress(components, inlined, defs, resolving) && ClosedUnderRefs(components, within)
      requires name in components ==> name in within
      modifies this
      ensures failed.None? ==>
        && name in components && name in defs && resolving == old(resolving)
        && InProgress(components, inlined, defs, resolving) && Grown(components, inlined, old(defs), defs, within)
      ensures failed.Some? ==> name !in components || Broken(components, Arr([]), within)
      decreases Left(components, defs), 0, Arr([]), 0
    {
      assert name in defs ==> name in components;
      hide Bounds, Broken, Grown, Covered, ClosedUnderRefs, RewriteMap, Left, InProgress;
      if name in defs {
        GrownSame(components, inlined, defs, within);
        return None;
      }
      if name !in components {
        return Some(NotFound(name));
      }
      ghost var defs0 := defs;
      defs := defs[name := PLACEHOLDER];
      FewerNames(components, defs0, name);
      if name in resolving {
        OnlyPlaceholder(components, inlined, defs0, resolving, name, within);
        return None;
      }
      ghost var mid := defs;
      EnterDef(components, inlined, defs0, resolving, name);
      MemberPart(components, name, within);
      resolving := resolving + {name};
      var resolved := ResolveMap(components[name], within);
      if resolved.Ok? {
        GrownAround(components, inlined, defs0, mid, defs, name, within);
        LeaveDef(components, inlined, mid, defs, resolving, name, Obj(resolved.value), within);
      }
      resolving := resolving - {name};
      if resolved.Err? {
        return Some(resolved.error);
      }
      defs := defs[name := Obj(resolved.value)];
      return None;
    }

    /** `resolveComponentSchema`, which only the top level calls. */
    method ResolveComponentSchema(name: string, ghost within: set<string>) returns (r: Result<Schema, ResolveError>)
      requires defs == map[] && resolving == {} && inlined == Some(name)
      requires name in components ==> Bounds(components, Obj(components[name]), within)
      modifies this
      ensures r.Ok? ==> name in components && r.value == RewriteMap(components[name])
      ensures r.Ok? ==> Finished(components, components[name], defs, within)
      ensures r.Err? ==> name !in components || Broken(components, Obj(components[name]), within)
    {
      if name !in components {
        return Err(NotFound(name));
      }
      resolving := resolving + {name};
      r := ResolveMap(components[name], within);
      resolving := resolving - {name};
      if r.Err? {
        return;
      }
      FinishInlined(components, name, defs, within);
      if name in defs {
        defs := defs[name := Obj(r.value)];
      }
    }
  }

  lemma FinishPlain(c: Components, target: Schema, defs: Defs, within: set<string>)
    requires Grown(c, None, map[], defs, within) && Covered(c, Obj(target), defs)
    ensures Finished(c, target, defs, within)
  {
  }

  /** Every reachable component, rewritten. */
  function Definitions(c: Components, target: Schema): Defs {
    map n | n in Reachable(c, Obj(target)) :: Obj(RewriteMap(c[n]))
  }

  /** A finished walk has defined exactly the reachable components. */
  lemma FinishedIsExact(c: Components, target: Schema, defs: Defs)
    requires Finished(c, target, defs, Reachable(c, Obj(target)))
    ensures Resolvable(c, Obj(target)) && defs == Definitions(c, target)
  {
    ReachableIsLeast(c, Obj(target), defs.Keys);
    hide Reachable, RewriteMap, Refs;
    assert ClosedUnderRefs(c, defs.Keys);
    assert defs.Keys == Reachable(c, Obj(target));
  }

  lemma BrokenIsUnresolvable(c: Components, target: Schema)
    requires Broken(c, Obj(target), Reachable(c, Obj(target)))
    ensures !Resolvable(c, Obj(target))
  {
  }

  /** The schema that a top-level reference stands for. */
  function Target(c: Components, schema: Schema): Option<Schema> {
    if !IsRef(schema) then Some(schema)
    else
      var name := ComponentName(schema[REF].text);
      if name.Some? && name.value in c then Some(c[name.value]) else None
  }

  lemma ReachableBounds(c: Components, target: Schema)
    ensures Bounds(c, Obj(target), Reachable(c, Obj(target)))
  {
    ReachableIsLeast(c, Obj(target), {});
    hide Reachable;
  }

  /** A schema that is no reference stands for itself, and a reference for the component that it names. */
  lemma TargetMeans(c: Components, schema: Schema)
    ensures !IsReference(Obj(schema)) ==> Target(c, schema) == Some(schema)
    ensures forall name :: IsReference(Obj(schema)) && schema["$ref"].text == "#/components/schemas/" + name ==>
              Target(c, schema) == if name in c then Some(c[name]) else None
    ensures IsReference(Obj(schema)) && !Defined(c, schema["$ref"].text) ==> Target(c, schema).None?
  {
    ReferenceIsRef(schema);
    if IsReference(Obj(schema)) {
      var ref := schema["$ref"].text;
      forall name | ref == "#/components/schemas/" + name
        ensures ComponentName(ref) == Some(name)
      {
        NameOfReference(name);
      }
      GoodIsDefined(c, ref);
    }
  }

  /** The schema has the shape of its target, the definitions are the components that a chain of references leads
    * to, and each has the shape of its component.
    */
  ghost predicate Resolved(c: Components, target: Schema, schema: Schema, defs: Defs) {
    && SameShape(Obj(target), Obj(schema))
    && (forall n :: n in defs <==> n in c && LeadsTo(c, Obj(target), n))
    && forall n :: n in defs ==> SameShape(Obj(c[n]), defs[n])
  }

  lemma DefinitionsResolved(c: Components, target: Schema)
    ensures Resolved(c, target, RewriteMap(target), Definitions(c, target))
  {
    forall n
      ensures n in Reachable(c, Obj(target)) <==> LeadsTo(c, Obj(target), n)
    {
      ReachableIsLed(c, Obj(target), n);
    }
    forall m: Schema
      ensures SameShape(Obj(m), Obj(RewriteMap(m)))
    {
      RewriteKeepsShape(Obj(m));
    }
    hide SameShape, LeadsTo, Reachable, RewriteMap;
  }

  /** `resolveSchemaRef` up to the point where the definitions are attached: it succeeds exactly when
    * everything reachable resolves, and the result does not depend on the order of map keys.
    */
  method ResolveSchemaRef(components: Components, schema: Schema) returns (r: Result<(Schema, Defs), ResolveError>)
    ensures r.Ok? <==> Target(components, schema).Some? && Resolvable(components, Obj(Target(components, schema).value))
    ensures r.Ok? ==> var target := Target(components, schema).value;
                      && r.value == (RewriteMap(target), Definitions(components, target))
                      && Resolved(components, target, r.value.0, r.value.1)
  {
    hide Resolvable, Broken, Covered, Grown, Bounds, Definitions, RewriteMap, Refs, Finished, Resolved;
    if IsRef(schema) {
      var name := ComponentName(schema[REF].text);
      if name.None? {
        return Err(UnsupportedRef(schema[REF].text));
      }
      ghost var within := if name.value in components then Reachable(components, Obj(components[name.value])) else {};
      if name.value in components {
        ReachableBounds(components, components[name.value]);
      }
      var resolver := new Resolver(components, name);
      var resolved := resolver.ResolveComponentSchema(name.value, within);
      if resolved.Err? {
        if name.value in components {
          BrokenIsUnresolvable(components, components[name.value]);
        }
        return Err(resolved.error);
      }
      FinishedIsExact(components, components[name.value], resolver.defs);
      DefinitionsResolved(components, components[name.value]);
      return Ok((resolved.value, resolver.defs));
    }
    ghost var within := Reachable(components, Obj(schema));
    ReachableBounds(components, schema);
    var resolver := new Resolver(components, None);
    var resolved := resolver.ResolveMap(schema, within);
    if resolved.Err? {
      BrokenIsUnresolvable(components, schema);
      return Err(resolved.error);
    }
    FinishPlain(components, schema, resolver.defs, within);
    FinishedIsExact(components, schema, resolver.defs);
    DefinitionsResolved(components, schema);
    return Ok((resolved.value, resolver.defs));
  }

  /** The resolved schema is self-contained: every reference in it, and in every definition, points to
    * a definition.
    */
  lemma SelfContained(c: Components, target: Schema, ref: string)
    requires Resolvable(c, Obj(target))
    requires || ref in Refs(Obj(RewriteMap(target)))
             || exists n :: n in Definitions(c, target) && ref in Refs(Definitions(c, target)[n])
    ensures exists n :: n in Definitions(c, target) && ref == DEFS + n
  {
    ReachableIsLeast(c, Obj(target), {});
    hide Reachable, Refs;
    if ref in Refs(Obj(RewriteMap(target))) {
      RewrittenRefs(c, Obj(target));
    } else {
      var n :| n in Definitions(c, target) && ref in Refs(Definitions(c, target)[n]);
      RewrittenRefs(c, Obj(c[n]));
    }
  }
}
