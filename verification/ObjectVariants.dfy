/**
 object_variants: nested `$ref`, `allOf`, `oneOf` and `anyOf` flattened into a list of object variants. The list
 is the schema's choices, one variant each, and flattening fails exactly where a choice has two schemas for one
 property or the traversal bails out.
 */
module ObjectVariants {
  import opened Wrappers
  import opened ObjectSchema
  import opened SchemaChoices
  import opened VariantLabels

  datatype Variant<P> = Variant(caption: Option<string>, properties: map<string, P>, required: set<string>)

  function ChoiceOf<P(==)>(v: Variant<P>): Choice<P> {
    Choice(v.properties.Items, v.required)
  }

  function ChoicesOf<P(==)>(variants: seq<Variant<P>>): (choices: seq<Choice<P>>)
    ensures |choices| == |variants|
    ensures forall i :: 0 <= i < |variants| ==> choices[i] == ChoiceOf(variants[i])
  {
    seq(|variants|, i requires 0 <= i < |variants| => ChoiceOf(variants[i]))
  }

  function LabelsOf<P>(variants: seq<Variant<P>>): (labels: seq<Option<string>>)
    ensures |labels| == |variants|
    ensures forall i :: 0 <= i < |variants| ==> labels[i] == variants[i].caption
  {
    seq(|variants|, i requires 0 <= i < |variants| => variants[i].caption)
  }

  lemma LabelsOfConcat<P>(left: seq<Variant<P>>, right: seq<Variant<P>>)
    ensures LabelsOf(left + right) == LabelsOf(left) + LabelsOf(right)
  {
  }

  lemma ChoicesOfConcat<P>(left: seq<Variant<P>>, right: seq<Variant<P>>)
    ensures ChoicesOf(left + right) == ChoicesOf(left) + ChoicesOf(right)
  {
  }

  lemma VariantsAgree<P>(variants: seq<Variant<P>>)
    ensures AllAgreeing(ChoicesOf(variants))
  {
  }

  // ---------- Merging ----------

  function MergeLabels(left: Option<string>, right: Option<string>): Option<string> {
    if left.Some? && right.Some? && left != right then
      Some(left.value + " + " + right.value)
    else if left.Some? then
      left
    else
      right
  }

  /** Both choices agree exactly when no property has different schemas in the two maps. */
  lemma BothAgreeing<P>(left: Variant<P>, right: Variant<P>)
    ensures Agreeing(Both(ChoiceOf(left), ChoiceOf(right))) <==>
            forall k :: k in left.properties && k in right.properties ==> left.properties[k] == right.properties[k]
  {
    var both := Both(ChoiceOf(left), ChoiceOf(right));
    if Agreeing(both) {
      forall k | k in left.properties && k in right.properties ensures left.properties[k] == right.properties[k] {
        assert (k, left.properties[k]) in both.properties && (k, right.properties[k]) in both.properties;
      }
    }
  }

  lemma MergedItems<P>(left: map<string, P>, right: map<string, P>, merged: map<string, P>)
    requires merged.Keys == left.Keys + right.Keys
    requires forall k :: k in left ==> merged[k] == left[k]
    requires forall k :: k in right ==> merged[k] == right[k]
    ensures merged.Items == left.Items + right.Items
  {
    forall x ensures x in merged.Items <==> x in left.Items + right.Items {
      assert x in merged.Items <==> x.0 in merged && merged[x.0] == x.1;
    }
  }

  /** merge_variants: None when the two define different schemas for one property. */
  method MergeVariants<P(==)>(left: Variant<P>, right: Variant<P>) returns (r: Option<Variant<P>>)
    ensures r.Some? <==> Agreeing(Both(ChoiceOf(left), ChoiceOf(right)))
    ensures r.Some? ==> ChoiceOf(r.value) == Both(ChoiceOf(left), ChoiceOf(right))
    ensures r.Some? ==> r.value.caption == Joined(left.caption, right.caption)
  {
    BothAgreeing(left, right);
    var properties := left.properties;
    var todo := right.properties.Keys;
    while todo != {}
      invariant todo <= right.properties.Keys
      invariant properties.Keys == left.properties.Keys + (right.properties.Keys - todo)
      invariant forall k :: k in left.properties ==> properties[k] == left.properties[k]
      invariant forall k :: k in right.properties && k !in todo ==> properties[k] == right.properties[k]
      decreases todo
    {
      var name :| name in todo;
      todo := todo - {name};
      if name in properties && properties[name] != right.properties[name] {
        return None;
      }
      properties := properties[name := right.properties[name]];
    }
    MergedItems(left.properties, right.properties, properties);
    r := Some(Variant(MergeLabels(left.caption, right.caption), properties, left.required + right.required));
  }

  /** The inner loop: one left variant merged with every right variant. */
  method MergeRow<P(==)>(left: Variant<P>, right: seq<Variant<P>>) returns (r: Option<seq<Variant<P>>>)
    ensures r.Some? <==> AllAgreeing(Row(ChoiceOf(left), ChoicesOf(right)))
    ensures r.Some? ==> ChoicesOf(r.value) == Row(ChoiceOf(left), ChoicesOf(right))
    ensures r.Some? ==> LabelsOf(r.value) == JoinedRow(left.caption, LabelsOf(right))
  {
    hide Agreeing, Both, ChoiceOf, Joined;
    ghost var goal := Row(ChoiceOf(left), ChoicesOf(right));
    var row: seq<Variant<P>> := [];
    for i := 0 to |right|
      invariant |row| == i && forall k :: 0 <= k < i ==> ChoiceOf(row[k]) == goal[k] && Agreeing(goal[k])
      invariant forall k :: 0 <= k < i ==> row[k].caption == Joined(left.caption, right[k].caption)
    {
      var merged := MergeVariants(left, right[i]);
      assert goal[i] == Both(ChoiceOf(left), ChoiceOf(right[i]));
      if merged.None? {
        return None;
      }
      row := row + [merged.value];
    }
    assert ChoicesOf(row) == goal;
    assert LabelsOf(row) == JoinedRow(left.caption, LabelsOf(right));
    r := Some(row);
  }

  /** merge_variant_sets: the product of the two lists. */
  method MergeVariantSets<P(==)>(left: seq<Variant<P>>, right: seq<Variant<P>>) returns (r: Option<seq<Variant<P>>>)
    ensures r.Some? <==> right != [] && AllAgreeing(Product(ChoicesOf(left), ChoicesOf(right)))
    ensures r.Some? ==> ChoicesOf(r.value) == Product(ChoicesOf(left), ChoicesOf(right))
    ensures r.Some? ==> LabelsOf(r.value) == JoinedAll(LabelsOf(left), LabelsOf(right))
  {
    hide Agreeing, Row, Product, ChoiceOf, ChoicesOf, AllAgreeing, LabelsOf, JoinedRow, JoinedAll;
    if right == [] {
      return None;
    }
    var merged: seq<Variant<P>> := [];
    NoProduct(left, right);
    for i := 0 to |left|
      invariant ChoicesOf(merged) == Product(ChoicesOf(left[..i]), ChoicesOf(right))
      invariant AllAgreeing(Product(ChoicesOf(left[..i]), ChoicesOf(right)))
      invariant LabelsOf(merged) == JoinedAll(LabelsOf(left[..i]), LabelsOf(right))
    {
      var row := MergeRow(left[i], right);
      ProductGrows(left, i, right);
      if row.None? {
        assert left[..|left|] == left;
        ProductPrefix(left, i + 1, right);
        return None;
      }
      ChoicesOfConcat(merged, row.value);
      LabelsOfConcat(merged, row.value);
      JoinedGrows(left, i, right);
      merged := merged + row.value;
    }
    assert left[..|left|] == left;
    r := Some(merged);
  }

  lemma NoProduct<P>(left: seq<Variant<P>>, right: seq<Variant<P>>)
    ensures ChoicesOf<P>([]) == Product(ChoicesOf(left[..0]), ChoicesOf(right)) == []
    ensures AllAgreeing(Product(ChoicesOf(left[..0]), ChoicesOf(right)))
    ensures LabelsOf<P>([]) == JoinedAll(LabelsOf(left[..0]), LabelsOf(right))
  {
  }

  lemma JoinedGrows<P>(left: seq<Variant<P>>, i: nat, right: seq<Variant<P>>)
    requires i < |left|
    ensures JoinedAll(LabelsOf(left[..i + 1]), LabelsOf(right))
         == JoinedAll(LabelsOf(left[..i]), LabelsOf(right)) + JoinedRow(left[i].caption, LabelsOf(right))
  {
    hide JoinedRow;
    assert LabelsOf(left[..i + 1])[..i] == LabelsOf(left[..i]);
  }

  lemma ProductGrows<P>(left: seq<Variant<P>>, i: nat, right: seq<Variant<P>>)
    requires i < |left|
    ensures var before := Product(ChoicesOf(left[..i]), ChoicesOf(right));
            var row := Row(ChoiceOf(left[i]), ChoicesOf(right));
      && Product(ChoicesOf(left[..i + 1]), ChoicesOf(right)) == before + row
      && (AllAgreeing(before + row) <==> AllAgreeing(before) && AllAgreeing(row))
  {
    hide Row, ChoiceOf, Agreeing;
    assert ChoicesOf(left[..i + 1])[..i] == ChoicesOf(left[..i]);
    AgreeingConcat(Product(ChoicesOf(left[..i]), ChoicesOf(right)), Row(ChoiceOf(left[i]), ChoicesOf(right)));
  }

  lemma {:induction false} ProductPrefix<P>(left: seq<Variant<P>>, n: nat, right: seq<Variant<P>>)
    requires n <= |left|
    ensures AllAgreeing(Product(ChoicesOf(left), ChoicesOf(right))) ==>
      AllAgreeing(Product(ChoicesOf(left[..n]), ChoicesOf(right)))
    decreases |left| - n
  {
    hide AllAgreeing, Product, ChoicesOf, ChoiceOf, Row;
    if n == |left| {
      assert left[..n] == left;
    } else {
      ProductPrefix(left, n + 1, right);
      ProductGrows(left, n, right);
    }
  }

  // ---------- Captions ----------

  function Caption<P>(v: Variant<P>, caption: Option<string>): (r: Variant<P>)
    ensures r.properties == v.properties && r.required == v.required
  {
    if v.caption.None? then v.(caption := caption) else v
  }

  function CaptionAll<P(==)>(variants: seq<Variant<P>>, caption: Option<string>): (r: seq<Variant<P>>)
    ensures ChoicesOf(r) == ChoicesOf(variants)
    ensures LabelsOf(r) == Filled(LabelsOf(variants), caption)
  {
    seq(|variants|, i requires 0 <= i < |variants| => Caption(variants[i], caption))
  }

  function ReferenceName(reference: string): (name: string)
    ensures name == LastPart(reference)
  {
    if reference == "" then "" else if reference[|reference| - 1] == '/' then "" else
    ReferenceName(reference[..|reference| - 1]) + [reference[|reference| - 1]]
  }

  // ---------- The recursion ----------

  /** The traversal does not bail out and no choice has two schemas for one property. */
  ghost predicate Flattens<P>(definitions: Definitions<P>, s: Schema<P>, stack: set<string>) {
    Traversable(definitions, s, stack) && AllAgreeing(Choices(definitions, s, stack))
  }

  /** object_variants_inner. */
  method VariantsOf<P(==)>(definitions: Definitions<P>, s: Schema<P>, stack: set<string>)
    returns (r: Option<seq<Variant<P>>>)
    ensures r.Some? <==> Flattens(definitions, s, stack)
    ensures r.Some? ==> ChoicesOf(r.value) == Choices(definitions, s, stack)
    ensures r.Some? ==> LabelsOf(r.value) == Labels(definitions, s, stack)
    decreases |definitions.Keys - stack|, s
  {
    hide Labels, LabelsOf, AllLabels, AnyLabels, JoinedAll, Filled, LastPart;
    hide Traversable, Choices, AllAgreeing, Product, ChoicesOf, AllTraversable, AllBranchesOk, AnyChoices, AllChoices;
    hide HasObjectBranch;
    if s.Reference? {
      ReferenceFlattens(definitions, s.reference, stack);
      if s.reference in stack || s.reference !in definitions {
        return None;
      }
      FollowingUsesRoom(definitions, stack, s.reference);
      r := VariantsOf(definitions, definitions[s.reference], stack + {s.reference});
      ReferenceLabels(definitions, s.reference, stack);
      if r.Some? {
        r := Some(CaptionAll(r.value, Some(ReferenceName(s.reference))));
      }
      return;
    }
    if s.NotAnObject? {
      NeverTraversable(definitions, s, stack);
      return None;
    }
    NodeFlattens(definitions, s, stack);
    var direct := Variant(if s.allOf.Branches? || s.oneOf.Branches? || s.anyOf.Branches? then None else s.title,
                          PropertiesOf(s), s.required);
    var variants := [direct];
    OneVariant(direct);
    NodeLabels(definitions, s, stack);
    NoLabels(definitions, stack, [direct.caption]);
    AllUnfold(definitions, [], stack, OwnChoice(s));
    NoBranches(definitions, stack);
    if s.allOf.Branches? {
      var all := AllOfVariants(definitions, s.allOf.list, stack, variants);
      if all.None? {
        return None;
      }
      variants := all.value;
    }
    if s.oneOf.Branches? && s.anyOf.Branches? {
      return None;
    }
    if s.oneOf.Branches? || s.anyOf.Branches? {
      var branches := if s.oneOf.Branches? then s.oneOf.list else s.anyOf.list;
      var any := UnionVariants(definitions, branches, stack);
      if any.None? {
        return None;
      }
      var merged := MergeVariantSets(variants, any.value);
      if merged.None? {
        return None;
      }
      variants := merged.value;
    } else if !ObjectShape(s) && s.allOf.Absent? {
      return None;
    }
    if |variants| > 1 {
      variants := CaptionAll(variants, s.title);
    }
    r := Some(variants);
  }

  function OwnChoice<P(==)>(s: Schema<P>): seq<Choice<P>>
    requires s.Node?
  {
    [Choice(PropertiesOf(s).Items, s.required)]
  }

  /** The labels of a node, in terms of its parts; the ones of a reference. */
  lemma NodeLabels<P>(definitions: Definitions<P>, s: Schema<P>, stack: set<string>)
    requires s.Node?
    ensures var own := [if s.allOf.Branches? || s.oneOf.Branches? || s.anyOf.Branches? then None else s.title];
            var all := AllLabels(definitions, ListOf(s.allOf), stack, own);
            var labels := if UnionOf(s).Branches? then JoinedAll(all, AnyLabels(definitions, UnionOf(s).list, stack))
                          else all;
            Labels(definitions, s, stack) == if |labels| > 1 then Filled(labels, s.title) else labels
  {
    hide JoinedAll, Filled, AnyLabels;
  }

  lemma ReferenceLabels<P>(definitions: Definitions<P>, r: string, stack: set<string>)
    requires r !in stack && r in definitions
    ensures Labels(definitions, Reference(r), stack)
         == Filled(Labels(definitions, definitions[r], stack + {r}), Some(LastPart(r)))
  {
    hide Filled, LastPart;
  }

  lemma OneVariant<P>(v: Variant<P>)
    ensures LabelsOf([v]) == [v.caption]
    ensures ChoicesOf([v]) == [ChoiceOf(v)] && AllAgreeing(ChoicesOf([v]))
  {
    VariantsAgree([v]);
  }

  lemma ReferenceFlattens<P>(definitions: Definitions<P>, r: string, stack: set<string>)
    ensures Flattens(definitions, Reference(r), stack) <==>
            r !in stack && r in definitions && Flattens(definitions, definitions[r], stack + {r})
    ensures r !in stack && r in definitions ==>
            Choices(definitions, Reference(r), stack) == Choices(definitions, definitions[r], stack + {r})
  {
    hide AllAgreeing;
    TraversableReference(definitions, r, stack);
  }

  /** When a node flattens, in terms of its parts. */
  lemma NodeFlattens<P>(definitions: Definitions<P>, s: Schema<P>, stack: set<string>)
    requires s.Node?
    ensures var all, union := AllChoices(definitions, ListOf(s.allOf), stack, OwnChoice(s)), UnionOf(s);
            var any := AnyChoices(definitions, ListOf(union), stack);
            && Choices(definitions, s, stack) == (if union.Branches? then Product(all, any) else all)
            && (Flattens(definitions, s, stack) <==>
                && AllTraversable(definitions, ListOf(s.allOf), stack) && AllAgreeing(all)
                && !(s.oneOf.Branches? && s.anyOf.Branches?)
                && (union.Branches? ==> AllBranchesOk(definitions, union.list, stack) && any != []
                                        && AllAgreeing(any) && AllAgreeing(Product(all, any)))
                && (ObjectShape(s) || s.allOf.Branches? || union.Branches?))
  {
    hide Traversable, AllAgreeing, Product, AllTraversable, AllBranchesOk, AnyChoices, AllChoices, HasObjectBranch;
    var all, union := AllChoices(definitions, ListOf(s.allOf), stack, OwnChoice(s)), UnionOf(s);
    var any := AnyChoices(definitions, ListOf(union), stack);
    TraversableNode(definitions, s, stack);
    NodeUnfold(definitions, s, stack);
    if AllTraversable(definitions, ListOf(s.allOf), stack) {
      AllHaveChoice(definitions, ListOf(s.allOf), stack, OwnChoice(s));
    }
    if union.Branches? && AllBranchesOk(definitions, union.list, stack) {
      AnyHasChoice(definitions, union.list, stack);
    } else if !union.Branches? {
      NoBranches(definitions, stack);
    }
    if AllAgreeing(Product(all, any)) {
      ProductAgreeing(all, any);
    }
  }

  lemma NodeUnfold<P>(definitions: Definitions<P>, s: Schema<P>, stack: set<string>)
    requires s.Node?
    ensures var all, union := AllChoices(definitions, ListOf(s.allOf), stack, OwnChoice(s)), UnionOf(s);
            Choices(definitions, s, stack)
            == if union.Branches? then Product(all, AnyChoices(definitions, union.list, stack)) else all
  {
    hide Product;
    AllUnfold(definitions, [], stack, OwnChoice(s));
  }

  lemma NoBranches<P>(definitions: Definitions<P>, stack: set<string>)
    ensures AllBranchesOk(definitions, [], stack) && AllTraversable(definitions, [], stack)
  {
  }

  /** The allOf loop. */
  method AllOfVariants<P(==)>(definitions: Definitions<P>, branches: seq<Schema<P>>, stack: set<string>,
                              start: seq<Variant<P>>)
    returns (r: Option<seq<Variant<P>>>)
    requires start != []
    ensures r.Some? <==>
      AllTraversable(definitions, branches, stack) &&
        AllAgreeing(AllChoices(definitions, branches, stack, ChoicesOf(start)))
    ensures r.Some? ==> ChoicesOf(r.value) == AllChoices(definitions, branches, stack, ChoicesOf(start))
    ensures r.Some? ==> LabelsOf(r.value) == AllLabels(definitions, branches, stack, LabelsOf(start))
    decreases |definitions.Keys - stack|, branches
  {
    hide Traversable, Choices, AllAgreeing, Product, ChoicesOf, AllChoices, Labels, LabelsOf, JoinedAll;
    var variants := start;
    VariantsAgree(start);
    AllUnfold(definitions, branches[..0], stack, ChoicesOf(start));
    for i := 0 to |branches|
      invariant ChoicesOf(variants) == AllChoices(definitions, branches[..i], stack, ChoicesOf(start))
      invariant LabelsOf(variants) == AllLabels(definitions, branches[..i], stack, LabelsOf(start))
      invariant forall k :: 0 <= k < i ==> Traversable(definitions, branches[k], stack)
    {
      var more := VariantsOf(definitions, branches[i], stack);
      AllOfPrefix(definitions, branches, i, stack, ChoicesOf(start));
      AllLabelsUnfold(definitions, branches, i, stack, LabelsOf(start));
      if more.None? {
        return None;
      }
      TraversableHasChoice(definitions, branches[i], stack);
      var merged := MergeVariantSets(variants, more.value);
      if merged.None? {
        return None;
      }
      variants := merged.value;
    }
    assert branches[..|branches|] == branches;
    VariantsAgree(variants);
    r := Some(variants);
  }

  /** If everything agrees in the end, it agrees after each branch, and so does the branch. */
  lemma AllOfPrefix<P>(definitions: Definitions<P>, branches: seq<Schema<P>>, i: nat, stack: set<string>,
                       start: seq<Choice<P>>)
    requires i < |branches| && start != []
    ensures AllChoices(definitions, branches[..i + 1], stack, start) ==
            Product(AllChoices(definitions, branches[..i], stack, start), Choices(definitions, branches[i], stack))
    ensures (&& AllTraversable(definitions, branches, stack)
             && AllAgreeing(AllChoices(definitions, branches, stack, start))) ==>
            && AllAgreeing(AllChoices(definitions, branches[..i + 1], stack, start))
            && Flattens(definitions, branches[i], stack)
  {
    hide Traversable, Choices, AllAgreeing, Product, AllChoices;
    assert branches[..i + 1][..i] == branches[..i];
    AllUnfold(definitions, branches[..i + 1], stack, start);
    if AllTraversable(definitions, branches, stack) && AllAgreeing(AllChoices(definitions, branches, stack, start)) {
      AgreesUpTo(definitions, branches, i + 1, stack, start);
      assert AllTraversable(definitions, branches[..i], stack);
      AllHaveChoice(definitions, branches[..i], stack, start);
      ProductAgreeing(AllChoices(definitions, branches[..i], stack, start), Choices(definitions, branches[i], stack));
    }
  }

  lemma {:induction false} AgreesUpTo<P>(definitions: Definitions<P>, branches: seq<Schema<P>>, n: nat,
                                         stack: set<string>, start: seq<Choice<P>>)
    requires n <= |branches| && AllTraversable(definitions, branches, stack)
    requires AllAgreeing(AllChoices(definitions, branches, stack, start))
    ensures AllAgreeing(AllChoices(definitions, branches[..n], stack, start))
    decreases |branches| - n
  {
    hide Traversable, Choices, AllAgreeing, Product, AllChoices;
    if n == |branches| {
      assert branches[..n] == branches;
    } else {
      AgreesUpTo(definitions, branches, n + 1, stack, start);
      assert branches[..n + 1][..n] == branches[..n];
      AllUnfold(definitions, branches[..n + 1], stack, start);
      TraversableHasChoice(definitions, branches[n], stack);
      ProductAgreeing(AllChoices(definitions, branches[..n], stack, start), Choices(definitions, branches[n], stack));
    }
  }

  /** The union loop: null-only branches are dropped. */
  method UnionVariants<P(==)>(definitions: Definitions<P>, branches: seq<Schema<P>>, stack: set<string>)
    returns (r: Option<seq<Variant<P>>>)
    ensures r.Some? <==>
      AllBranchesOk(definitions, branches, stack) && AllAgreeing(AnyChoices(definitions, branches, stack))
    ensures r.Some? ==> ChoicesOf(r.value) == AnyChoices(definitions, branches, stack)
    ensures r.Some? ==> LabelsOf(r.value) == AnyLabels(definitions, branches, stack)
    decreases |definitions.Keys - stack|, branches
  {
    hide OnlyNull, Traversable, Choices, AllAgreeing, ChoicesOf, AnyChoices, Labels, LabelsOf;
    var variants: seq<Variant<P>> := [];
    AnyUnfold(definitions, branches[..0], stack);
    NoVariants<P>();
    for i := 0 to |branches|
      invariant ChoicesOf(variants) == AnyChoices(definitions, branches[..i], stack)
      invariant LabelsOf(variants) == AnyLabels(definitions, branches[..i], stack)
      invariant forall k :: 0 <= k < i ==> BranchOk(definitions, branches[k], stack)
    {
      var only := OnlyNull(definitions, branches[i], {});
      UnionPrefix(definitions, branches, i, stack);
      AnyLabelsUnfold(definitions, branches, i, stack);
      if only.None? {
        return None;
      }
      if !only.value {
        var found := VariantsOf(definitions, branches[i], stack);
        if found.None? {
          return None;
        }
        ChoicesOfConcat(variants, found.value);
        LabelsOfConcat(variants, found.value);
        variants := variants + found.value;
      }
    }
    assert branches[..|branches|] == branches;
    VariantsAgree(variants);
    r := Some(variants);
  }

  lemma NoVariants<P>()
    ensures ChoicesOf<P>([]) == [] && LabelsOf<P>([]) == []
  {
  }

  lemma UnionPrefix<P>(definitions: Definitions<P>, branches: seq<Schema<P>>, i: nat, stack: set<string>)
    requires i < |branches|
    ensures AnyChoices(definitions, branches[..i + 1], stack) ==
            AnyChoices(definitions, branches[..i], stack) + BranchChoices(definitions, branches[i], stack)
    ensures AllAgreeing(AnyChoices(definitions, branches, stack)) ==>
      AllAgreeing(BranchChoices(definitions, branches[i], stack))
  {
    hide OnlyNull, Choices, AllAgreeing, AnyChoices, BranchChoices;
    assert branches[..i + 1][..i] == branches[..i];
    AnyUnfold(definitions, branches[..i + 1], stack);
    if AllAgreeing(AnyChoices(definitions, branches, stack)) {
      UnionAgreesUpTo(definitions, branches, i + 1, stack);
      AgreeingConcat(AnyChoices(definitions, branches[..i], stack), BranchChoices(definitions, branches[i], stack));
    }
  }

  lemma {:induction false} UnionAgreesUpTo<P>(definitions: Definitions<P>, branches: seq<Schema<P>>, n: nat,
                                              stack: set<string>)
    requires n <= |branches| && AllAgreeing(AnyChoices(definitions, branches, stack))
    ensures AllAgreeing(AnyChoices(definitions, branches[..n], stack))
    decreases |branches| - n
  {
    hide OnlyNull, Choices, AllAgreeing, AnyChoices, BranchChoices;
    if n == |branches| {
      assert branches[..n] == branches;
    } else {
      UnionAgreesUpTo(definitions, branches, n + 1, stack);
      assert branches[..n + 1][..n] == branches[..n];
      AnyUnfold(definitions, branches[..n + 1], stack);
      AgreeingConcat(AnyChoices(definitions, branches[..n], stack), BranchChoices(definitions, branches[n], stack));
    }
  }

  // ---------- The whole schema ----------

  ghost predicate Fits<P>(v: Variant<P>, instance: Instance<P>) {
    Admits(v.properties, v.required, instance)
  }

  /** Some variant fits exactly the object instances of the schema, however deep its references are followed. */
  ghost predicate Describes<P(!new)>(definitions: Definitions<P>, root: Schema<P>, variants: seq<Variant<P>>) {
    forall instance: Instance<P>, depth: nat, bottom: bool :: depth >= Room(definitions, {}) ==>
      DescribesAt(definitions, root, variants, instance, depth, bottom)
  }

  ghost predicate DescribesAt<P>(definitions: Definitions<P>, root: Schema<P>, variants: seq<Variant<P>>,
                                 instance: Instance<P>, depth: nat, bottom: bool)
  {
    (exists i :: 0 <= i < |variants| && Fits(variants[i], instance)) <==>
      Meets(definitions, root, instance, depth, bottom)
  }

  lemma VariantFits<P>(v: Variant<P>, instance: Instance<P>)
    ensures Fits(v, instance) <==> ChoiceFits(ChoiceOf(v), instance)
  {
    OwnFits(v.properties, v.required, instance);
    assert [ChoiceOf(v)][0] == ChoiceOf(v);
  }

  lemma ChoicesMakeDescription<P(!new)>(definitions: Definitions<P>, root: Schema<P>, variants: seq<Variant<P>>)
    requires Traversable(definitions, root, {}) && InFragment(definitions, root)
    requires ChoicesOf(variants) == Choices(definitions, root, {})
    ensures Describes(definitions, root, variants)
  {
    hide Traversable, InFragment, Choices, Meets, ChoiceFits, Fits, ChoiceOf;
    forall instance: Instance<P>, depth: nat, bottom: bool | depth >= Room(definitions, {})
      ensures DescribesAt(definitions, root, variants, instance, depth, bottom)
    {
      ChoicesDescribe(definitions, root, {}, instance, depth, bottom);
      forall i | 0 <= i < |variants|
        ensures Fits(variants[i], instance) <==> ChoiceFits(ChoicesOf(variants)[i], instance)
      {
        VariantFits(variants[i], instance);
      }
    }
  }

  /**
   object_variants: succeeds exactly when the traversal does not bail out and no choice of union branches brings
   two schemas for one property together; the variants are then the choices, and mean what the schema means.
   */
  method Flatten<P(==, !new)>(definitions: Definitions<P>, root: Schema<P>) returns (r: Option<seq<Variant<P>>>)
    ensures r.Some? <==> Flattens(definitions, root, {})
    ensures r.Some? ==> r.value != [] && ChoicesOf(r.value) == Choices(definitions, root, {})
    ensures r.Some? ==>
      LabelsOf(r.value) == if |r.value| == 1 then [None] else Labels(definitions, root, {})
    ensures r.Some? && InFragment(definitions, root) ==> Describes(definitions, root, r.value)
  {
    hide Traversable, InFragment, Choices, Describes, AllAgreeing, Labels;
    r := VariantsOf(definitions, root, {});
    if r.None? {
      return;
    }
    // A traversable schema has a choice, so the list is never empty here.
    TraversableHasChoice(definitions, root, {});
    if |r.value| == 1 {
      var variants := [r.value[0].(caption := None)];
      assert ChoicesOf(variants) == ChoicesOf(r.value);
      r := Some(variants);
    }
    if InFragment(definitions, root) {
      ChoicesMakeDescription(definitions, root, r.value);
    }
  }
}
