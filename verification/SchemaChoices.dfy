/**
 The choices of an object schema: what it asks for once a branch is chosen in every union. A choice is kept as
 the pairs of property names and property schemas that its nodes bring together, whether or not they agree.
 */
module SchemaChoices {
  import opened Wrappers
  import opened ObjectSchema

  datatype Choice<P(==)> = Choice(properties: set<(string, P)>, required: set<string>)

  function Both<P(==)>(left: Choice<P>, right: Choice<P>): Choice<P> {
    Choice(left.properties + right.properties, left.required + right.required)
  }

  function Row<P(==)>(left: Choice<P>, right: seq<Choice<P>>): seq<Choice<P>> {
    seq(|right|, i requires 0 <= i < |right| => Both(left, right[i]))
  }

  /** Every left choice with every right choice, left ones first. */
  function Product<P(==)>(left: seq<Choice<P>>, right: seq<Choice<P>>): seq<Choice<P>> {
    if left == [] then [] else Product(left[..|left| - 1], right) + Row(left[|left| - 1], right)
  }

  /** One branch per union, all branches of allOf, references unfolded. */
  function Choices<P(==)>(definitions: Definitions<P>, s: Schema<P>, stack: set<string>): seq<Choice<P>>
    decreases |definitions.Keys - stack|, s, 0
  {
    match s
    case Reference(r) =>
      if r in stack || r !in definitions then
        []
      else
        FollowingUsesRoom(definitions, stack, r);
        Choices(definitions, definitions[r], stack + {r})
    case NotAnObject(_) => []
    case Node(_, _, _, _, required, allOf, oneOf, anyOf) =>
      var own := [Choice(PropertiesOf(s).Items, required)];
      var all := if allOf.Branches? then AllChoices(definitions, allOf.list, stack, own) else own;
      if oneOf.Branches? then Product(all, AnyChoices(definitions, oneOf.list, stack))
      else if anyOf.Branches? then Product(all, AnyChoices(definitions, anyOf.list, stack))
      else all
  }

  function AllChoices<P(==)>(definitions: Definitions<P>, branches: seq<Schema<P>>, stack: set<string>,
                             start: seq<Choice<P>>): seq<Choice<P>>
    decreases |definitions.Keys - stack|, branches
  {
    if branches == [] then
      start
    else
      Product(AllChoices(definitions, branches[..|branches| - 1], stack, start),
              Choices(definitions, branches[|branches| - 1], stack))
  }

  function AnyChoices<P(==)>(definitions: Definitions<P>, branches: seq<Schema<P>>, stack: set<string>): seq<Choice<P>>
    decreases |definitions.Keys - stack|, branches
  {
    if branches == [] then
      []
    else
      AnyChoices(definitions, branches[..|branches| - 1], stack) +
        BranchChoices(definitions, branches[|branches| - 1], stack)
  }

  /** A null-only branch offers nothing. */
  function BranchChoices<P(==)>(definitions: Definitions<P>, s: Schema<P>, stack: set<string>): seq<Choice<P>>
    decreases |definitions.Keys - stack|, s, 1
  {
    if OnlyNull(definitions, s, {}) == Some(true) then [] else Choices(definitions, s, stack)
  }

  // ---------- Meaning ----------

  ghost predicate ChoiceFits<P>(c: Choice<P>, instance: Instance<P>) {
    c.required <= instance.Keys && forall x :: x in c.properties && x.0 in instance ==> x.1 in instance[x.0].satisfies
  }

  ghost predicate SomeFits<P>(choices: seq<Choice<P>>, instance: Instance<P>) {
    exists i :: 0 <= i < |choices| && ChoiceFits(choices[i], instance)
  }

  lemma BothFits<P>(left: Choice<P>, right: Choice<P>, instance: Instance<P>)
    ensures ChoiceFits(Both(left, right), instance) <==> ChoiceFits(left, instance) && ChoiceFits(right, instance)
  {
  }

  lemma OwnFits<P>(properties: map<string, P>, required: set<string>, instance: Instance<P>)
    ensures SomeFits([Choice(properties.Items, required)], instance) <==> Admits(properties, required, instance)
  {
    var own := Choice(properties.Items, required);
    assert [own][0] == own;
    if ChoiceFits(own, instance) {
      forall k | k in properties && k in instance ensures properties[k] in instance[k].satisfies {
        assert (k, properties[k]) in own.properties;
      }
    }
  }

  lemma SomeFitsConcat<P>(left: seq<Choice<P>>, right: seq<Choice<P>>, instance: Instance<P>)
    ensures SomeFits(left + right, instance) <==> SomeFits(left, instance) || SomeFits(right, instance)
  {
    hide ChoiceFits;
    var all := left + right;
    if SomeFits(left, instance) {
      var i :| 0 <= i < |left| && ChoiceFits(left[i], instance);
      assert all[i] == left[i];
    }
    if SomeFits(right, instance) {
      var i :| 0 <= i < |right| && ChoiceFits(right[i], instance);
      assert all[|left| + i] == right[i];
    }
  }

  lemma RowFits<P>(left: Choice<P>, right: seq<Choice<P>>, instance: Instance<P>)
    ensures SomeFits(Row(left, right), instance) <==> ChoiceFits(left, instance) && SomeFits(right, instance)
  {
    hide ChoiceFits, Both;
    var row := Row(left, right);
    forall i | 0 <= i < |right|
      ensures ChoiceFits(row[i], instance) <==> ChoiceFits(left, instance) && ChoiceFits(right[i], instance)
    {
      BothFits(left, right[i], instance);
    }
    if SomeFits(right, instance) {
      var i :| 0 <= i < |right| && ChoiceFits(right[i], instance);
      assert ChoiceFits(left, instance) ==> ChoiceFits(row[i], instance);
    }
  }

  /** A product means the conjunction of its two sides. */
  lemma {:induction false} ProductFits<P>(left: seq<Choice<P>>, right: seq<Choice<P>>, instance: Instance<P>)
    ensures SomeFits(Product(left, right), instance) <==> SomeFits(left, instance) && SomeFits(right, instance)
  {
    hide ChoiceFits, Row;
    if left != [] {
      var init, last := left[..|left| - 1], left[|left| - 1];
      ProductFits(init, right, instance);
      RowFits(last, right, instance);
      SomeFitsConcat(Product(init, right), Row(last, right), instance);
      assert left == init + [last];
      SomeFitsConcat(init, [last], instance);
      assert SomeFits([last], instance) <==> ChoiceFits(last, instance) by { assert [last][0] == last; }
    }
  }

  /** The choices of a traversable schema describe exactly its object instances. */
  lemma {:induction false} ChoicesDescribe<P>(definitions: Definitions<P>, s: Schema<P>, stack: set<string>,
                                              instance: Instance<P>, depth: nat, bottom: bool)
    requires Traversable(definitions, s, stack) && InFragment(definitions, s) && depth >= Room(definitions, stack)
    ensures SomeFits(Choices(definitions, s, stack), instance) <==> Meets(definitions, s, instance, depth, bottom)
    decreases |definitions.Keys - stack|, s, 0
  {
    hide SomeFits, Passes, OpenToObjects, Admits, OnlyNull, Traversable, Meets, Product, AllTraversable, AllBranchesOk;
    hide AllInFragment, HasObjectBranch;
    match s
    case Reference(r) =>
      TraversableReference(definitions, r, stack);
      FollowingUsesRoom(definitions, stack, r);
      ChoicesDescribe(definitions, definitions[r], stack + {r}, instance, depth - 1, bottom);
      ReferenceMeets(definitions, r, instance, depth, bottom);
    case NotAnObject(_) =>
      NeverTraversable(definitions, s, stack);
    case Node(_, _, _, _, required, allOf, oneOf, anyOf) =>
      TraversableNode(definitions, s, stack);
      BelowInFragment(definitions, s);
      var own := [Choice(PropertiesOf(s).Items, required)];
      OwnFits(PropertiesOf(s), required, instance);
      if allOf.Branches? {
        AllDescribe(definitions, allOf.list, stack, own, instance, depth, bottom);
      }
      var all := if allOf.Branches? then AllChoices(definitions, allOf.list, stack, own) else own;
      if oneOf.Branches? {
        AnyDescribe(definitions, oneOf.list, stack, instance, depth, bottom);
        ProductFits(all, AnyChoices(definitions, oneOf.list, stack), instance);
      } else if anyOf.Branches? {
        AnyDescribe(definitions, anyOf.list, stack, instance, depth, bottom);
        ProductFits(all, AnyChoices(definitions, anyOf.list, stack), instance);
      }
      OpenPasses(instance, s.tests);
      NodeMeets(definitions, s, instance, depth, bottom);
  }

  lemma {:induction false} AllDescribe<P>(definitions: Definitions<P>, branches: seq<Schema<P>>, stack: set<string>,
                                          start: seq<Choice<P>>, instance: Instance<P>, depth: nat, bottom: bool)
    requires AllTraversable(definitions, branches, stack) && AllInFragment(definitions, branches)
    requires depth >= Room(definitions, stack)
    ensures SomeFits(AllChoices(definitions, branches, stack, start), instance) <==>
            SomeFits(start, instance) && MeetsAll(definitions, branches, instance, depth, bottom)
    decreases |definitions.Keys - stack|, branches
  {
    hide SomeFits, OnlyNull, Traversable, Meets, Product, InFragment, Choices, AllChoices, Room;
    AllUnfold(definitions, branches, stack, start);
    if branches != [] {
      var init, last := branches[..|branches| - 1], branches[|branches| - 1];
      AllDescribe(definitions, init, stack, start, instance, depth, bottom);
      ChoicesDescribe(definitions, last, stack, instance, depth, bottom);
      ProductFits(AllChoices(definitions, init, stack, start), Choices(definitions, last, stack), instance);
      assert forall k :: 0 <= k < |init| ==> branches[k] == init[k];
    }
  }

  lemma AllUnfold<P>(definitions: Definitions<P>, branches: seq<Schema<P>>, stack: set<string>, start: seq<Choice<P>>)
    ensures AllChoices(definitions, branches, stack, start) ==
      if branches == [] then start else
      Product(AllChoices(definitions, branches[..|branches| - 1], stack, start),
              Choices(definitions, branches[|branches| - 1], stack))
  {
  }

  lemma AnyUnfold<P>(definitions: Definitions<P>, branches: seq<Schema<P>>, stack: set<string>)
    ensures AnyChoices(definitions, branches, stack) ==
      if branches == [] then [] else
      AnyChoices(definitions, branches[..|branches| - 1], stack) +
        BranchChoices(definitions, branches[|branches| - 1], stack)
  {
  }

  lemma NothingFits<P>(instance: Instance<P>)
    ensures !SomeFits([], instance)
  {
  }

  lemma {:induction false} AnyDescribe<P>(definitions: Definitions<P>, branches: seq<Schema<P>>, stack: set<string>,
                                          instance: Instance<P>, depth: nat, bottom: bool)
    requires AllBranchesOk(definitions, branches, stack) && AllInFragment(definitions, branches)
    requires depth >= Room(definitions, stack)
    ensures SomeFits(AnyChoices(definitions, branches, stack), instance) <==>
      MeetsAny(definitions, branches, instance, depth, bottom)
    decreases |definitions.Keys - stack|, branches
  {
    hide OnlyNull, Traversable, Meets, Product, InFragment, SomeFits, Choices, AnyChoices, Room, MeetsAny;
    AnyUnfold(definitions, branches, stack);
    NothingFits(instance);
    if branches == [] {
      assert !MeetsAny(definitions, branches, instance, depth, bottom) by {
        NoneMeets(definitions, instance, depth, bottom);
      }
    } else {
      var init, last := branches[..|branches| - 1], branches[|branches| - 1];
      AnyDescribe(definitions, init, stack, instance, depth, bottom);
      assert BranchOk(definitions, last, stack);
      BranchDescribe(definitions, last, stack, instance, depth, bottom);
      SomeFitsConcat(AnyChoices(definitions, init, stack), BranchChoices(definitions, last, stack), instance);
      AnyOfLonger(definitions, init, last, instance, depth, bottom);
      assert branches == init + [last];
    }
  }

  lemma NoneMeets<P>(definitions: Definitions<P>, instance: Instance<P>, depth: nat, bottom: bool)
    ensures !MeetsAny(definitions, [], instance, depth, bottom)
  {
  }

  lemma {:induction false} BranchDescribe<P>(definitions: Definitions<P>, s: Schema<P>, stack: set<string>,
                                             instance: Instance<P>, depth: nat, bottom: bool)
    requires BranchOk(definitions, s, stack) && InFragment(definitions, s) && depth >= Room(definitions, stack)
    ensures SomeFits(BranchChoices(definitions, s, stack), instance) <==> Meets(definitions, s, instance, depth, bottom)
    decreases |definitions.Keys - stack|, s, 1
  {
    hide OnlyNull, Traversable, Meets, InFragment, SomeFits, Choices;
    if OnlyNull(definitions, s, {}) == Some(true) {
      assert definitions.Keys - {} == definitions.Keys;
      NullAdmitsNoObject(definitions, s, {}, instance, depth, bottom);
      NothingFits(instance);
    } else {
      ChoicesDescribe(definitions, s, stack, instance, depth, bottom);
    }
  }

  lemma AnyOfLonger<P>(definitions: Definitions<P>, init: seq<Schema<P>>, last: Schema<P>, instance: Instance<P>,
                       depth: nat, bottom: bool)
    ensures MeetsAny(definitions, init + [last], instance, depth, bottom) <==>
            MeetsAny(definitions, init, instance, depth, bottom) || Meets(definitions, last, instance, depth, bottom)
  {
    hide Meets;
    var longer := init + [last];
    if MeetsAny(definitions, init, instance, depth, bottom) {
      var k :| 0 <= k < |init| && Meets(definitions, init[k], instance, depth, bottom);
      assert longer[k] == init[k];
    }
    assert longer[|init|] == last;
  }

  // ---------- Agreement ----------

  /** No property name with two schemas. */
  ghost predicate Agreeing<P>(c: Choice<P>) {
    forall x, y :: x in c.properties && y in c.properties && x.0 == y.0 ==> x.1 == y.1
  }

  ghost predicate AllAgreeing<P>(choices: seq<Choice<P>>) {
    forall i :: 0 <= i < |choices| ==> Agreeing(choices[i])
  }

  lemma RowAgreeing<P>(left: Choice<P>, right: seq<Choice<P>>)
    requires AllAgreeing(Row(left, right))
    ensures AllAgreeing(right) && (right != [] ==> Agreeing(left))
  {
    forall i | 0 <= i < |right| ensures Agreeing(right[i]) && Agreeing(left) {
      assert Agreeing(Row(left, right)[i]);
    }
    if right != [] {
      assert Agreeing(Row(left, right)[0]);
    }
  }

  /** Agreement in a product needs agreement on each side, unless the other side is empty. */
  lemma {:induction false} ProductAgreeing<P>(left: seq<Choice<P>>, right: seq<Choice<P>>)
    requires AllAgreeing(Product(left, right))
    ensures right != [] ==> AllAgreeing(left)
    ensures left != [] ==> AllAgreeing(right)
  {
    hide Agreeing, Row;
    if left != [] {
      var init, last := left[..|left| - 1], left[|left| - 1];
      AgreeingConcat(Product(init, right), Row(last, right));
      ProductAgreeing(init, right);
      RowAgreeing(last, right);
    }
  }

  lemma AgreeingConcat<P>(left: seq<Choice<P>>, right: seq<Choice<P>>)
    ensures AllAgreeing(left + right) <==> AllAgreeing(left) && AllAgreeing(right)
  {
    hide Agreeing;
    var all := left + right;
    assert forall i :: 0 <= i < |left| ==> all[i] == left[i];
    assert forall i :: 0 <= i < |right| ==> all[|left| + i] == right[i];
  }

  lemma {:induction false} ProductSize<P>(left: seq<Choice<P>>, right: seq<Choice<P>>)
    ensures Product(left, right) == [] <==> left == [] || right == []
  {
    if left != [] {
      ProductSize(left[..|left| - 1], right);
    }
  }

  /** A traversable schema has a choice. */
  lemma {:induction false} TraversableHasChoice<P>(definitions: Definitions<P>, s: Schema<P>, stack: set<string>)
    requires Traversable(definitions, s, stack)
    ensures Choices(definitions, s, stack) != []
    decreases |definitions.Keys - stack|, s
  {
    hide OnlyNull, Traversable, Product, AllBranchesOk, AllTraversable, HasObjectBranch;
    match s
    case Reference(r) =>
      TraversableReference(definitions, r, stack);
      FollowingUsesRoom(definitions, stack, r);
      TraversableHasChoice(definitions, definitions[r], stack + {r});
    case NotAnObject(_) =>
      NeverTraversable(definitions, s, stack);
    case Node(_, _, _, _, required, allOf, oneOf, anyOf) =>
      TraversableNode(definitions, s, stack);
      var own := [Choice(PropertiesOf(s).Items, required)];
      if allOf.Branches? {
        AllHaveChoice(definitions, allOf.list, stack, own);
      }
      var all := if allOf.Branches? then AllChoices(definitions, allOf.list, stack, own) else own;
      if oneOf.Branches? {
        AnyHasChoice(definitions, oneOf.list, stack);
        ProductSize(all, AnyChoices(definitions, oneOf.list, stack));
      } else if anyOf.Branches? {
        AnyHasChoice(definitions, anyOf.list, stack);
        ProductSize(all, AnyChoices(definitions, anyOf.list, stack));
      }
  }

  lemma {:induction false} AllHaveChoice<P>(definitions: Definitions<P>, branches: seq<Schema<P>>, stack: set<string>,
                                            start: seq<Choice<P>>)
    requires AllTraversable(definitions, branches, stack) && start != []
    ensures AllChoices(definitions, branches, stack, start) != []
    decreases |definitions.Keys - stack|, branches
  {
    hide OnlyNull, Traversable, Product, Choices;
    if branches != [] {
      var init, last := branches[..|branches| - 1], branches[|branches| - 1];
      AllHaveChoice(definitions, init, stack, start);
      TraversableHasChoice(definitions, last, stack);
      ProductSize(AllChoices(definitions, init, stack, start), Choices(definitions, last, stack));
    }
  }

  lemma {:induction false} AnyHasChoice<P>(definitions: Definitions<P>, branches: seq<Schema<P>>, stack: set<string>)
    requires AllBranchesOk(definitions, branches, stack)
    ensures AnyChoices(definitions, branches, stack) != [] <==> HasObjectBranch(definitions, branches)
    decreases |definitions.Keys - stack|, branches
  {
    hide OnlyNull, Traversable, Product, Choices;
    if branches != [] {
      var init, last := branches[..|branches| - 1], branches[|branches| - 1];
      AnyHasChoice(definitions, init, stack);
      assert BranchOk(definitions, last, stack);
      if OnlyNull(definitions, last, {}) != Some(true) {
        TraversableHasChoice(definitions, last, stack);
      }
      assert forall k :: 0 <= k < |init| ==> branches[k] == init[k];
    }
  }
}
