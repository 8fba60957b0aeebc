/**
 Object schemas as the contract documentation reads them, and what they mean.

 A schema node is read for object instances only: `required` and `properties` constrain the members
 (section 6.5 of JSON Schema Validation draft-07), `allOf` is a conjunction, `oneOf` and `anyOf` are
 unions, `const`, `type` and `enum` test the whole value (section 6.1), and a reference stands for its target alone.
 */
module ObjectSchema {
  import opened Wrappers

  datatype Json =
    | JsonNull | JsonBool(flag: bool) | JsonNumber(number: real) | JsonString(text: string)
    | JsonArray(items: seq<Json>) | JsonObject(members: map<string, Json>)

  /** The `type` keyword: absent, a name, or a list of names. */
  datatype Kinds = NoKind | OneKind(kind: string) | KindList(kinds: seq<string>)

  /** Keywords about the value itself: `const`, `type` and `enum`. */
  datatype ValueTests = ValueTests(constant: Option<Json>, kinds: Kinds, enumerated: Option<seq<Json>>)

  /** P is the type of property schemas. `additional` says whether additionalProperties is present. */
  datatype Schema<P> =
    | Reference(reference: string)
    | NotAnObject(isFalse: bool)
    | Node(title: Option<string>, tests: ValueTests, properties: Option<map<string, P>>, additional: bool,
           required: set<string>, allOf: Branches<P>, oneOf: Branches<P>, anyOf: Branches<P>)

  /** A combinator keyword: absent, or its array. */
  datatype Branches<P> = Absent | Branches(list: seq<Schema<P>>)

  type Definitions<P> = map<string, Schema<P>>

  /** schema_allows_only_null, for the keywords of one node. */
  predicate NullOnly(t: ValueTests) {
    if t.constant == Some(JsonNull) || t.kinds == OneKind("null") then
      true
    else if t.enumerated.Some? then
      t.enumerated.value != [] && forall i :: 0 <= i < |t.enumerated.value| ==> t.enumerated.value[i].JsonNull?
    else if t.kinds.KindList? then
      t.kinds.kinds != [] && forall i :: 0 <= i < |t.kinds.kinds| ==> t.kinds.kinds[i] == "null"
    else
      false
  }

  predicate ObjectShape<P>(s: Schema<P>)
    requires s.Node?
  {
    s.tests.kinds == OneKind("object") || s.properties.Some? || s.additional
  }

  function PropertiesOf<P>(s: Schema<P>): map<string, P>
    requires s.Node?
  {
    if s.properties.Some? then s.properties.value else map[]
  }

  function ListOf<P>(b: Branches<P>): seq<Schema<P>> {
    if b.Branches? then b.list else []
  }

  // ---------- Meaning ----------

  /** A value is of a kind named by `type`. */
  predicate HasKind(v: Json, kind: string) {
    match v
    case JsonNull => kind == "null"
    case JsonBool(_) => kind == "boolean"
    case JsonNumber(number) => kind == "number" || (kind == "integer" && number == number.Floor as real)
    case JsonString(_) => kind == "string"
    case JsonArray(_) => kind == "array"
    case JsonObject(_) => kind == "object"
  }

  predicate Passes(v: Json, t: ValueTests) {
    && (t.constant.Some? ==> v == t.constant.value)
    && (t.kinds.OneKind? ==> HasKind(v, t.kinds.kind))
    && (t.kinds.KindList? ==> exists i :: 0 <= i < |t.kinds.kinds| && HasKind(v, t.kinds.kinds[i]))
    && (t.enumerated.Some? ==> v in t.enumerated.value)
  }

  /** A member of an object instance: its value, and the property schemas that the value satisfies. */
  datatype Member<!P> = Member(value: Json, satisfies: iset<P>)

  type Instance<!P> = map<string, Member<P>>

  function ObjectValue<P>(instance: Instance<P>): Json {
    JsonObject(map k | k in instance :: instance[k].value)
  }

  ghost predicate Admits<P>(properties: map<string, P>, required: set<string>, instance: Instance<P>) {
    required <= instance.Keys && forall k :: k in properties && k in instance ==> properties[k] in instance[k].satisfies
  }

  /**
   The instance satisfies the schema when references are followed at most `depth` deep; `bottom` is
   the answer for deeper ones, so that cyclic references have every reading.
   */
  ghost predicate Meets<P>(definitions: Definitions<P>, s: Schema<P>, instance: Instance<P>, depth: nat, bottom: bool)
    decreases depth, s
  {
    match s
    case Reference(r) =>
      if depth == 0 then bottom else r in definitions && Meets(definitions, definitions[r], instance, depth - 1, bottom)
    case NotAnObject(isFalse) => !isFalse
    case Node(_, tests, properties, _, required, allOf, oneOf, anyOf) =>
      && Passes(ObjectValue(instance), tests)
      && (forall k :: k in required ==> k in instance)
      && (properties.Some? ==>
            forall k :: k in properties.value && k in instance ==> properties.value[k] in instance[k].satisfies)
      && (allOf.Branches? ==> forall b :: b in allOf.list ==> Meets(definitions, b, instance, depth, bottom))
      && (oneOf.Branches? ==> exists b :: b in oneOf.list && Meets(definitions, b, instance, depth, bottom))
      && (anyOf.Branches? ==> exists b :: b in anyOf.list && Meets(definitions, b, instance, depth, bottom))
  }

  ghost predicate MeetsAll<P>(definitions: Definitions<P>, branches: seq<Schema<P>>, instance: Instance<P>, depth: nat,
                              bottom: bool)
  {
    forall k :: 0 <= k < |branches| ==> Meets(definitions, branches[k], instance, depth, bottom)
  }

  ghost predicate MeetsAny<P>(definitions: Definitions<P>, branches: seq<Schema<P>>, instance: Instance<P>, depth: nat,
                              bottom: bool)
  {
    exists k :: 0 <= k < |branches| && Meets(definitions, branches[k], instance, depth, bottom)
  }

  lemma NodeMeets<P>(definitions: Definitions<P>, s: Schema<P>, instance: Instance<P>, depth: nat, bottom: bool)
    requires s.Node?
    ensures Meets(definitions, s, instance, depth, bottom) <==>
            && Passes(ObjectValue(instance), s.tests) && Admits(PropertiesOf(s), s.required, instance)
            && MeetsAll(definitions, ListOf(s.allOf), instance, depth, bottom)
            && (s.oneOf.Branches? ==> MeetsAny(definitions, s.oneOf.list, instance, depth, bottom))
            && (s.anyOf.Branches? ==> MeetsAny(definitions, s.anyOf.list, instance, depth, bottom))
  {
    hide Passes;
  }

  /** `const`, `type` and `enum` leave all objects in. */
  predicate OpenToObjects(t: ValueTests) {
    && t.constant.None? && t.enumerated.None?
    && (t.kinds.OneKind? ==> t.kinds.kind == "object")
    && (t.kinds.KindList? ==> "object" in t.kinds.kinds)
  }

  /** Nodes that are read for their objects leave all of them in, here and below. */
  ghost predicate NodesOpen<P>(s: Schema<P>) {
    match s
    case Reference(_) => true
    case NotAnObject(_) => true
    case Node(_, tests, _, _, _, allOf, oneOf, anyOf) =>
      && (ObjectShape(s) || allOf.Branches? || oneOf.Branches? || anyOf.Branches? ==> OpenToObjects(tests))
      && (allOf.Branches? ==> forall b :: b in allOf.list ==> NodesOpen(b))
      && (oneOf.Branches? ==> forall b :: b in oneOf.list ==> NodesOpen(b))
      && (anyOf.Branches? ==> forall b :: b in anyOf.list ==> NodesOpen(b))
  }

  ghost predicate InFragment<P>(definitions: Definitions<P>, s: Schema<P>) {
    NodesOpen(s) && forall r :: r in definitions ==> NodesOpen(definitions[r])
  }

  ghost predicate AllInFragment<P>(definitions: Definitions<P>, branches: seq<Schema<P>>) {
    forall k :: 0 <= k < |branches| ==> InFragment(definitions, branches[k])
  }

  lemma BelowInFragment<P>(definitions: Definitions<P>, s: Schema<P>)
    requires s.Node? && InFragment(definitions, s)
    ensures AllInFragment(definitions, ListOf(s.allOf))
    ensures AllInFragment(definitions, ListOf(s.oneOf)) && AllInFragment(definitions, ListOf(s.anyOf))
    ensures ObjectShape(s) || s.allOf.Branches? || UnionOf(s).Branches? ==> OpenToObjects(s.tests)
  {
    hide OpenToObjects, ObjectShape;
  }

  lemma OpenPasses<P>(instance: Instance<P>, t: ValueTests)
    requires OpenToObjects(t)
    ensures Passes(ObjectValue(instance), t)
  {
    if t.kinds.KindList? {
      var i :| 0 <= i < |t.kinds.kinds| && t.kinds.kinds[i] == "object";
      assert HasKind(ObjectValue(instance), t.kinds.kinds[i]);
    }
  }

  /** What the null-only test says is true. */
  lemma NullOnlyMeansNull(t: ValueTests, v: Json)
    requires NullOnly(t) && Passes(v, t)
    ensures v == JsonNull
  {
  }

  /** A number beyond the members named "" of these values. */
  function Beyond(values: seq<Json>): real {
    if values == [] then
      0.0
    else
      var rest, v := Beyond(values[1..]), values[0];
      if v.JsonObject? && "" in v.members && v.members[""].JsonNumber? && v.members[""].number >= rest then
        v.members[""].number + 1.0
      else
        rest
  }

  lemma {:induction false} BeyondIsNew(values: seq<Json>, v: Json)
    requires v.JsonObject? && "" in v.members && v.members[""].JsonNumber? && v.members[""].number >= Beyond(values)
    ensures v !in values
  {
    if values != [] {
      BeyondIsNew(values[1..], v);
      assert values == [values[0]] + values[1..];
    }
  }

  /** An object with the required members and one more, which satisfy all the property schemas. */
  ghost function Stranger<P>(s: Schema<P>, number: real): Instance<P>
    requires s.Node?
  {
    map k | k in s.required + {""} :: Member(JsonNumber(number), iset p | p in PropertiesOf(s).Values)
  }

  /** Reading a plain node for `properties` and `required` alone is right exactly when it leaves all objects in. */
  lemma ReadRightIffOpen<P(!new)>(definitions: Definitions<P>, s: Schema<P>, depth: nat, bottom: bool)
    requires s.Node? && s.allOf.Absent? && s.oneOf.Absent? && s.anyOf.Absent?
    ensures OpenToObjects(s.tests) <==>
            forall instance: Instance<P> ::
              Admits(PropertiesOf(s), s.required, instance) <==> Meets(definitions, s, instance, depth, bottom)
  {
    hide Admits, Passes, Meets;
    forall instance: Instance<P>
      ensures Meets(definitions, s, instance, depth, bottom) <==>
              Passes(ObjectValue(instance), s.tests) && Admits(PropertiesOf(s), s.required, instance)
    {
      NodeMeets(definitions, s, instance, depth, bottom);
    }
    if OpenToObjects(s.tests) {
      forall instance: Instance<P> ensures Passes(ObjectValue(instance), s.tests) {
        OpenPasses(instance, s.tests);
      }
    } else {
      var listed := (if s.tests.constant.Some? then [s.tests.constant.value] else [])
                    + (if s.tests.enumerated.Some? then s.tests.enumerated.value else []);
      var instance: Instance<P> := Stranger(s, Beyond(listed));
      StrangerFails(s.tests, listed, instance);
      assert Admits(PropertiesOf(s), s.required, instance) by { StrangerIsAdmitted(s, Beyond(listed)); }
    }
  }

  lemma StrangerIsAdmitted<P>(s: Schema<P>, number: real)
    requires s.Node?
    ensures Admits(PropertiesOf(s), s.required, Stranger(s, number))
  {
  }

  lemma StrangerFails<P>(t: ValueTests, listed: seq<Json>, instance: Instance<P>)
    requires !OpenToObjects(t) && "" in instance && instance[""].value == JsonNumber(Beyond(listed))
    requires t.constant.Some? ==> t.constant.value in listed
    requires t.enumerated.Some? ==> forall v :: v in t.enumerated.value ==> v in listed
    ensures !Passes(ObjectValue(instance), t)
  {
    BeyondIsNew(listed, ObjectValue(instance));
  }

  // ---------- Null-only branches ----------

  /** schema_allows_only_null; None where the code bails out on a cyclic or dangling reference or a non-object. */
  function OnlyNull<P>(definitions: Definitions<P>, s: Schema<P>, stack: set<string>): Option<bool>
    decreases |definitions.Keys - stack|
  {
    match s
    case Node(_, tests, _, _, _, _, _, _) => Some(NullOnly(tests))
    case NotAnObject(isFalse) => if isFalse then Some(false) else None
    case Reference(r) =>
      if r in stack || r !in definitions then
        None
      else
        FollowingUsesRoom(definitions, stack, r);
        OnlyNull(definitions, definitions[r], stack + {r})
  }

  lemma FollowingUsesRoom<P>(definitions: Definitions<P>, stack: set<string>, r: string)
    requires r in definitions && r !in stack
    ensures |definitions.Keys - (stack + {r})| == |definitions.Keys - stack| - 1
  {
    assert definitions.Keys - (stack + {r}) == (definitions.Keys - stack) - {r};
  }

  /** Following these references in turn leads from s to the schema at the end, which is not a reference. */
  ghost predicate LeadsTo<P>(definitions: Definitions<P>, s: Schema<P>, names: seq<string>, end: Schema<P>)
    decreases |names|
  {
    if names == [] then
      s == end && !end.Reference?
    else
      && s == Reference(names[0]) && names[0] in definitions
      && LeadsTo(definitions, definitions[names[0]], names[1..], end)
  }

  /** No reference twice, and none that is being followed already. */
  ghost predicate FreshNames(names: seq<string>, stack: set<string>) {
    && (forall i, j :: 0 <= i < j < |names| ==> names[i] != names[j])
    && (forall i :: 0 <= i < |names| ==> names[i] !in stack)
  }

  /** What is found at the end of the references: a node's own answer, or no for the schema false. */
  ghost predicate AnswersNull<P>(end: Schema<P>, answer: bool) {
    if end.Node? then answer == NullOnly(end.tests) else end == NotAnObject(true) && !answer
  }

  /** The question has an answer exactly at the end of references that resolve and do not go in a circle. */
  lemma {:induction false} OnlyNullExactly<P>(definitions: Definitions<P>, s: Schema<P>, stack: set<string>,
                                              answer: bool)
    ensures OnlyNull(definitions, s, stack) == Some(answer) <==>
            exists names, end ::
              LeadsTo(definitions, s, names, end) && FreshNames(names, stack) && AnswersNull(end, answer)
    decreases |definitions.Keys - stack|
  {
    hide NullOnly, AnswersNull;
    if s.Reference? && s.reference !in stack && s.reference in definitions {
      var r := s.reference;
      FollowingUsesRoom(definitions, stack, r);
      OnlyNullExactly(definitions, definitions[r], stack + {r}, answer);
      if OnlyNull(definitions, definitions[r], stack + {r}) == Some(answer) {
        var names, end :| && LeadsTo(definitions, definitions[r], names, end) && FreshNames(names, stack + {r})
                          && AnswersNull(end, answer);
        assert ([r] + names)[1..] == names;
        assert LeadsTo(definitions, s, [r] + names, end) && FreshNames([r] + names, stack);
      }
      if exists names, end ::
           LeadsTo(definitions, s, names, end) && FreshNames(names, stack) && AnswersNull(end, answer) {
        var names, end :| LeadsTo(definitions, s, names, end) && FreshNames(names, stack) && AnswersNull(end, answer);
        assert names[0] == r && LeadsTo(definitions, definitions[r], names[1..], end);
        assert FreshNames(names[1..], stack + {r});
      }
    } else if !s.Reference? {
      assert AnswersNull(s, answer) <==> OnlyNull(definitions, s, stack) == Some(answer) by {
        AnswerOfEnd(definitions, s, stack, answer);
      }
      assert LeadsTo(definitions, s, [], s) && FreshNames([], stack);
    }
  }

  lemma AnswerOfEnd<P>(definitions: Definitions<P>, s: Schema<P>, stack: set<string>, answer: bool)
    requires !s.Reference?
    ensures AnswersNull(s, answer) <==> OnlyNull(definitions, s, stack) == Some(answer)
  {
    hide NullOnly;
  }

  /** A branch dropped as null-only admits no object. */
  lemma {:induction false} NullAdmitsNoObject<P>(definitions: Definitions<P>, s: Schema<P>, stack: set<string>,
                                                 instance: Instance<P>, depth: nat, bottom: bool)
    requires OnlyNull(definitions, s, stack) == Some(true) && depth >= |definitions.Keys - stack|
    ensures !Meets(definitions, s, instance, depth, bottom)
    decreases |definitions.Keys - stack|
  {
    hide Passes, NullOnly, Admits, MeetsAll, MeetsAny;
    if s.Reference? {
      ReferenceMeets(definitions, s.reference, instance, depth, bottom);
      FollowingUsesRoom(definitions, stack, s.reference);
      NullAdmitsNoObject(definitions, definitions[s.reference], stack + {s.reference}, instance, depth - 1, bottom);
    } else if s.Node? {
      if Passes(ObjectValue(instance), s.tests) {
        NullOnlyMeansNull(s.tests, ObjectValue(instance));
      }
      NodeMeets(definitions, s, instance, depth, bottom);
    }
  }

  /** The names of section 6.1.1. */
  predicate IsKind(kind: string) {
    kind in {"null", "boolean", "number", "integer", "string", "array", "object"}
  }

  predicate LegalKinds(t: ValueTests) {
    && (t.kinds.OneKind? ==> IsKind(t.kinds.kind))
    && (t.kinds.KindList? ==> forall i :: 0 <= i < |t.kinds.kinds| ==> IsKind(t.kinds.kinds[i]))
  }

  ghost predicate OnlyNullPasses(t: ValueTests) {
    forall v :: Passes(v, t) ==> v == JsonNull
  }

  /** A value of the kind, not null if the kind has others. */
  function Sample(kind: string): (v: Json)
    requires IsKind(kind)
    ensures HasKind(v, kind) && (v == JsonNull <==> kind == "null")
  {
    if kind == "null" then JsonNull
    else if kind == "boolean" then JsonBool(true)
    else if kind == "number" || kind == "integer" then JsonNumber(0.0)
    else if kind == "string" then JsonString("")
    else if kind == "array" then JsonArray([])
    else JsonObject(map[])
  }

  /**
   The null-only test finds every node that leaves null alone in, unless a list of types and an enumeration
   only do so together.
   */
  lemma NullOnlyExactly(t: ValueTests)
    requires LegalKinds(t) && Passes(JsonNull, t)
    ensures NullOnly(t) <==>
            && OnlyNullPasses(t)
            && (t.constant.None? && !t.kinds.OneKind? && t.enumerated.Some? ==>
                  forall v :: v in t.enumerated.value ==> v == JsonNull)
  {
    hide HasKind;
    if NullOnly(t) {
      forall v | Passes(v, t) ensures v == JsonNull {
        NullOnlyMeansNull(t, v);
      }
      KindOfNull();
    } else if t.enumerated.Some? {
      KindOfNull();
      var i :| 0 <= i < |t.enumerated.value| && t.enumerated.value[i] != JsonNull;
      assert t.enumerated.value[i] in t.enumerated.value;
    } else if t.kinds.KindList? {
      var i :| 0 <= i < |t.kinds.kinds| && t.kinds.kinds[i] != "null";
      var v := Sample(t.kinds.kinds[i]);
      assert Passes(v, t);
    } else {
      KindOfNull();
      assert Passes(JsonBool(true), t);
    }
  }

  lemma KindOfNull()
    ensures forall kind :: HasKind(JsonNull, kind) <==> kind == "null"
  {
  }

  /** A node has an object shape when its type leaves only objects in, or it speaks of properties. */
  lemma ShapeExactly<P>(s: Schema<P>)
    requires s.Node? && LegalKinds(s.tests)
    ensures ObjectShape(s) <==>
            || s.properties.Some? || s.additional
            || (s.tests.kinds.OneKind? && forall v :: HasKind(v, s.tests.kinds.kind) ==> v.JsonObject?)
  {
    if s.tests.kinds.OneKind? && s.tests.kinds.kind != "object" {
      assert HasKind(Sample(s.tests.kinds.kind), s.tests.kinds.kind);
    }
  }

  /** A list of types and an enumeration that leave null alone in together, unnoticed. */
  lemma NullLeftByTwoKeywords()
    ensures var t := ValueTests(None, KindList(["null"]), Some([JsonNull, JsonString("x")]));
            Passes(JsonNull, t) && OnlyNullPasses(t) && !NullOnly(t)
  {
    var t := ValueTests(None, KindList(["null"]), Some([JsonNull, JsonString("x")]));
    assert t.kinds.kinds[0] == "null" && t.enumerated.value[1] == JsonString("x");
    assert !HasKind(JsonString("x"), "null");
  }

  // ---------- When the traversal does not bail out ----------

  /**
   Every reference met resolves and none is met inside itself; a node has at most one union, some branch
   of which is not null-only, or an object shape, or allOf.
   */
  ghost predicate Traversable<P>(definitions: Definitions<P>, s: Schema<P>, stack: set<string>)
    decreases |definitions.Keys - stack|, s, 0
  {
    match s
    case Reference(r) =>
      && r !in stack && r in definitions
      && (FollowingUsesRoom(definitions, stack, r); Traversable(definitions, definitions[r], stack + {r}))
    case NotAnObject(_) => false
    case Node(_, _, _, _, _, allOf, oneOf, anyOf) =>
      && (allOf.Branches? ==> forall b :: b in allOf.list ==> Traversable(definitions, b, stack))
      && !(oneOf.Branches? && anyOf.Branches?)
      && (oneOf.Branches? ==> HasObjectBranch(definitions, oneOf.list))
      && (anyOf.Branches? ==> HasObjectBranch(definitions, anyOf.list))
      && (oneOf.Branches? ==> forall b :: b in oneOf.list ==> BranchOk(definitions, b, stack))
      && (anyOf.Branches? ==> forall b :: b in anyOf.list ==> BranchOk(definitions, b, stack))
      && (ObjectShape(s) || allOf.Branches? || oneOf.Branches? || anyOf.Branches?)
  }

  ghost predicate HasObjectBranch<P>(definitions: Definitions<P>, branches: seq<Schema<P>>) {
    exists k :: 0 <= k < |branches| && OnlyNull(definitions, branches[k], {}) == Some(false)
  }

  ghost predicate AllTraversable<P>(definitions: Definitions<P>, branches: seq<Schema<P>>, stack: set<string>) {
    forall k :: 0 <= k < |branches| ==> Traversable(definitions, branches[k], stack)
  }

  /** A union branch is null-only, or not and traversable. */
  ghost predicate BranchOk<P>(definitions: Definitions<P>, s: Schema<P>, stack: set<string>)
    decreases |definitions.Keys - stack|, s, 1
  {
    || OnlyNull(definitions, s, {}) == Some(true)
    || (OnlyNull(definitions, s, {}) == Some(false) && Traversable(definitions, s, stack))
  }

  ghost predicate AllBranchesOk<P>(definitions: Definitions<P>, branches: seq<Schema<P>>, stack: set<string>) {
    forall k :: 0 <= k < |branches| ==> BranchOk(definitions, branches[k], stack)
  }

  function UnionOf<P>(s: Schema<P>): Branches<P>
    requires s.Node?
  {
    if s.oneOf.Branches? then s.oneOf else s.anyOf
  }

  lemma TraversableReference<P>(definitions: Definitions<P>, r: string, stack: set<string>)
    ensures Traversable(definitions, Reference(r), stack) <==>
            r !in stack && r in definitions && Traversable(definitions, definitions[r], stack + {r})
  {
  }

  lemma TraversableNode<P>(definitions: Definitions<P>, s: Schema<P>, stack: set<string>)
    requires s.Node?
    ensures var union := UnionOf(s);
            Traversable(definitions, s, stack) <==>
            && AllTraversable(definitions, ListOf(s.allOf), stack)
            && !(s.oneOf.Branches? && s.anyOf.Branches?)
            && AllBranchesOk(definitions, ListOf(union), stack)
            && (union.Branches? ==> HasObjectBranch(definitions, union.list))
            && (ObjectShape(s) || s.allOf.Branches? || union.Branches?)
  {
    hide OnlyNull;
    var all, union := ListOf(s.allOf), ListOf(UnionOf(s));
    assert (forall b :: b in all ==> Traversable(definitions, b, stack)) <==>
           (forall k :: 0 <= k < |all| ==> Traversable(definitions, all[k], stack));
    assert (forall b :: b in union ==> BranchOk(definitions, b, stack)) <==>
           (forall k :: 0 <= k < |union| ==> BranchOk(definitions, union[k], stack));
  }

  /** Depth enough for the references not on the stack and for one more chain of references. */
  ghost function Room<P>(definitions: Definitions<P>, stack: set<string>): nat {
    |definitions.Keys - stack| + |definitions.Keys|
  }

  /** A traversable schema has one meaning: no reading of unfinished references can change it. */
  lemma {:induction false} MeaningIsSettled<P>(definitions: Definitions<P>, s: Schema<P>, stack: set<string>,
                                               instance: Instance<P>,
                                               depth: nat, bottom: bool, other: nat, otherBottom: bool)
    requires Traversable(definitions, s, stack) && depth >= Room(definitions, stack)
    requires other >= Room(definitions, stack)
    ensures Meets(definitions, s, instance, depth, bottom) <==> Meets(definitions, s, instance, other, otherBottom)
    decreases |definitions.Keys - stack|, s
  {
    hide Passes, Admits, OnlyNull, Traversable, Meets, AllTraversable, AllBranchesOk, HasObjectBranch;
    hide BranchesSettled;
    match s
    case Reference(r) =>
      TraversableReference(definitions, r, stack);
      FollowingUsesRoom(definitions, stack, r);
      MeaningIsSettled(definitions, definitions[r], stack + {r}, instance, depth - 1, bottom, other - 1, otherBottom);
      ReferenceMeets(definitions, r, instance, depth, bottom);
      ReferenceMeets(definitions, r, instance, other, otherBottom);
    case NotAnObject(_) =>
      NeverTraversable(definitions, s, stack);
    case Node(_, _, _, _, _, allOf, oneOf, anyOf) =>
      TraversableNode(definitions, s, stack);
      if allOf.Branches? {
        SettledBranches(definitions, allOf.list, stack, instance, depth, bottom, other, otherBottom);
      }
      if oneOf.Branches? {
        SettledBranches(definitions, oneOf.list, stack, instance, depth, bottom, other, otherBottom);
      }
      if anyOf.Branches? {
        SettledBranches(definitions, anyOf.list, stack, instance, depth, bottom, other, otherBottom);
      }
      SettledNode(definitions, s, instance, depth, bottom, other, otherBottom);
  }

  ghost predicate BranchesSettled<P>(definitions: Definitions<P>, branches: seq<Schema<P>>, instance: Instance<P>,
                                     depth: nat, bottom: bool, other: nat, otherBottom: bool) {
    forall k :: 0 <= k < |branches| ==>
      (Meets(definitions, branches[k], instance, depth, bottom) <==>
        Meets(definitions, branches[k], instance, other, otherBottom))
  }

  lemma SettledNode<P>(definitions: Definitions<P>, s: Schema<P>, instance: Instance<P>, depth: nat, bottom: bool,
                       other: nat, otherBottom: bool)
    requires s.Node?
    requires s.allOf.Branches? ==>
      BranchesSettled(definitions, s.allOf.list, instance, depth, bottom, other, otherBottom)
    requires s.oneOf.Branches? ==>
      BranchesSettled(definitions, s.oneOf.list, instance, depth, bottom, other, otherBottom)
    requires s.anyOf.Branches? ==>
      BranchesSettled(definitions, s.anyOf.list, instance, depth, bottom, other, otherBottom)
    ensures Meets(definitions, s, instance, depth, bottom) <==> Meets(definitions, s, instance, other, otherBottom)
  {
    hide Passes, Admits, Meets;
    NodeMeets(definitions, s, instance, depth, bottom);
    NodeMeets(definitions, s, instance, other, otherBottom);
  }

  lemma ReferenceMeets<P>(definitions: Definitions<P>, r: string, instance: Instance<P>, depth: nat, bottom: bool)
    requires depth > 0 && r in definitions
    ensures Meets(definitions, Reference(r), instance, depth, bottom) <==>
      Meets(definitions, definitions[r], instance, depth - 1, bottom)
  {
  }

  lemma NeverTraversable<P>(definitions: Definitions<P>, s: Schema<P>, stack: set<string>)
    requires s.NotAnObject?
    ensures !Traversable(definitions, s, stack)
  {
  }

  lemma {:induction false} SettledBranches<P>(definitions: Definitions<P>, branches: seq<Schema<P>>, stack: set<string>,
                                              instance: Instance<P>,
                                              depth: nat, bottom: bool, other: nat, otherBottom: bool)
    requires AllTraversable(definitions, branches, stack) || AllBranchesOk(definitions, branches, stack)
    requires depth >= Room(definitions, stack) && other >= Room(definitions, stack)
    ensures BranchesSettled(definitions, branches, instance, depth, bottom, other, otherBottom)
    decreases |definitions.Keys - stack|, branches
  {
    hide Passes, Admits, OnlyNull, Traversable, Meets;
    forall k | 0 <= k < |branches|
      ensures Meets(definitions, branches[k], instance, depth, bottom) <==>
        Meets(definitions, branches[k], instance, other, otherBottom)
    {
      if Traversable(definitions, branches[k], stack) {
        MeaningIsSettled(definitions, branches[k], stack, instance, depth, bottom, other, otherBottom);
      } else {
        assert BranchOk(definitions, branches[k], stack);
        assert definitions.Keys - {} == definitions.Keys;
        NullAdmitsNoObject(definitions, branches[k], {}, instance, depth, bottom);
        NullAdmitsNoObject(definitions, branches[k], {}, instance, other, otherBottom);
      }
    }
  }
}
