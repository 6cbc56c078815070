/** JSON schemas with component references, their rewriting, and the reference graph. */
module SchemaGraph {
  import opened Wrappers

  datatype Json = Obj(fields: map<string, Json>) | Arr(items: seq<Json>) | Str(text: string) | Atom(value: int)

  type Schema = map<string, Json>

  type Components = map<string, Schema>

  const REF := "$ref"
  const PREFIX := "#/components/schemas/"
  const DEFS := "#/$defs/"

  /** A map with a non-empty string under `$ref` is a reference, whatever else it holds. */
  predicate IsRef(m: Schema) { REF in m && m[REF].Str? && m[REF].text != "" }

  /** `schemaComponentName` */
  function ComponentName(ref: string): Option<string> {
    if PREFIX <= ref then Some(ref[|PREFIX|..]) else None
  }

  /** The references of a schema value, as written. */
  function Refs(j: Json): set<string>
    decreases j
  {
    match j
    case Obj(m) => if IsRef(m) then {m[REF].text} else set k, r | k in m.Keys && r in Refs(m[k]) :: r
    case Arr(items) => set i, r | 0 <= i < |items| && r in Refs(items[i]) :: r
    case _ => {}
  }

  /** A reference is well formed and names a defined component. */
  predicate Good(c: Components, ref: string) {
    ComponentName(ref).Some? && ComponentName(ref).value in c
  }

  predicate AllGood(c: Components, j: Json) { forall r :: r in Refs(j) ==> Good(c, r) }

  /** The defined components that a value refers to. */
  function Names(c: Components, j: Json): (names: set<string>)
    ensures names <= c.Keys
  {
    set r | r in Refs(j) && Good(c, r) :: ComponentName(r).value
  }

  function Pointer(name: string): Schema { map[REF := Str(DEFS + name)] }

  function RewriteMap(m: Schema): Schema
    decreases Obj(m), 0
  {
    if IsRef(m) then
      (match ComponentName(m[REF].text)
       case Some(name) => Pointer(name)
       case None => m)
    else map k | k in m :: Rewrite(m[k])
  }

  /** The value with every component reference turned into a pointer to the definitions. */
  function Rewrite(j: Json): Json
    decreases j, 1
  {
    match j
    case Obj(m) => Obj(RewriteMap(m))
    case Arr(items) => Arr(seq(|items|, i requires 0 <= i < |items| => Rewrite(items[i])))
    case _ => j
  }

  // Reachable components.

  predicate ClosedUnderRefs(c: Components, names: set<string>) {
    names <= c.Keys && forall n :: n in names ==> Names(c, Obj(c[n])) <= names
  }

  /** The components that `found` refers to. */
  function Successors(c: Components, found: set<string>): (next: set<string>)
    requires found <= c.Keys
    ensures next <= c.Keys
  {
    set n, r | n in found && r in Names(c, Obj(c[n])) :: r
  }

  lemma FewerLeft(all: set<string>, a: set<string>, b: set<string>)
    requires a < b <= all
    ensures |all - b| < |all - a|
  {
    assert all - a == (all - b) + (b - a);
    assert b - a != {};
  }

  function Explore(c: Components, found: set<string>): (all: set<string>)
    requires found <= c.Keys
    ensures found <= all <= c.Keys
    decreases |c.Keys - found|
  {
    var next := found + Successors(c, found);
    if next == found then found else
      FewerLeft(c.Keys, found, next);
      Explore(c, next)
  }

  /** All components reachable from a value. */
  function Reachable(c: Components, j: Json): (names: set<string>)
    ensures Names(c, j) <= names <= c.Keys
  {
    Explore(c, Names(c, j))
  }

  lemma {:induction false} ExploreLeast(c: Components, found: set<string>, s: set<string>)
    requires found <= c.Keys
    ensures ClosedUnderRefs(c, Explore(c, found))
    ensures found <= s && ClosedUnderRefs(c, s) ==> Explore(c, found) <= s
    decreases |c.Keys - found|
  {
    hide Names;
    var next := found + Successors(c, found);
    if next == found {
      assert forall n :: n in found ==> Names(c, Obj(c[n])) <= Successors(c, found);
    } else {
      FewerLeft(c.Keys, found, next);
      ExploreLeast(c, next, s);
    }
  }

  /** The reachable components are the least set that holds the referenced ones and is closed. */
  lemma ReachableIsLeast(c: Components, j: Json, s: set<string>)
    ensures ClosedUnderRefs(c, Reachable(c, j))
    ensures Names(c, j) <= s && ClosedUnderRefs(c, s) ==> Reachable(c, j) <= s
  {
    ExploreLeast(c, Names(c, j), s);
  }

  /** Every reference in the value or in a component reachable from it is well formed and defined. */
  ghost predicate Resolvable(c: Components, j: Json) {
    AllGood(c, j) && forall n :: n in Reachable(c, j) ==> AllGood(c, Obj(c[n]))
  }

  /** The references of a map that is not one are those of its values. */
  lemma FieldRefs(c: Components, m: Schema)
    requires !IsRef(m)
    ensures forall r :: r in Refs(Obj(m)) <==> exists k :: k in m && r in Refs(m[k])
    ensures forall n :: n in Names(c, Obj(m)) <==> exists k :: k in m && n in Names(c, m[k])
    ensures AllGood(c, Obj(m)) ==> forall k :: k in m ==> AllGood(c, m[k])
  {
    hide Good, ComponentName;
    assert forall r :: r in Refs(Obj(m)) <==> exists k :: k in m && r in Refs(m[k]);
  }

  lemma {:induction false} MapRefs(c: Components, m: Schema)
    requires !IsRef(m) && AllGood(c, Obj(m))
    ensures Refs(Rewrite(Obj(m))) == set n | n in Names(c, Obj(m)) :: DEFS + n
    decreases Obj(m), 0
  {
    var w := RewriteMap(m);
    if REF in m {
      assert w[REF] == Rewrite(m[REF]);
    }
    assert !IsRef(w);
    FieldRefs(c, m);
    FieldRefs(c, w);
    hide Names, Refs, RewriteMap, IsRef, AllGood;
    forall k | k in m
      ensures AllGood(c, m[k]) && Refs(w[k]) == set n | n in Names(c, m[k]) :: DEFS + n
    {
      RewrittenRefs(c, m[k]);
    }
  }

  lemma {:induction false} ArrayRefs(c: Components, items: seq<Json>)
    requires AllGood(c, Arr(items))
    ensures Refs(Rewrite(Arr(items))) == set n | n in Names(c, Arr(items)) :: DEFS + n
    decreases Arr(items), 0
  {
    var w := Rewrite(Arr(items)).items;
    forall i | 0 <= i < |items|
      ensures AllGood(c, items[i]) && Refs(w[i]) == set n | n in Names(c, items[i]) :: DEFS + n
    {
      assert forall r :: r in Refs(items[i]) ==> r in Refs(Arr(items));
      RewrittenRefs(c, items[i]);
    }
    assert forall r :: r in Refs(Arr(w)) <==> exists i :: 0 <= i < |items| && r in Refs(w[i]);
    assert forall n :: n in Names(c, Arr(items)) <==> exists i :: 0 <= i < |items| && n in Names(c, items[i]);
  }

  /** Every reference of a rewritten value is a pointer, and the pointers are those to the named components. */
  lemma {:induction false} RewrittenRefs(c: Components, j: Json)
    requires AllGood(c, j)
    ensures Refs(Rewrite(j)) == set n | n in Names(c, j) :: DEFS + n
    decreases j
  {
    match j
    case Obj(m) =>
      if IsRef(m) {
        assert Refs(j) == {m[REF].text};
        assert Good(c, m[REF].text);
        var name := ComponentName(m[REF].text).value;
        assert IsRef(Pointer(name)) && Refs(Obj(Pointer(name))) == {DEFS + name};
        assert Names(c, j) == {name};
      } else {
        MapRefs(c, m);
      }
    case Arr(items) => ArrayRefs(c, items);
    case _ => assert Refs(j) == {} && Rewrite(j) == j;
  }
}
