/**
 The labels of object variants: titles, the names of references, and both sides of a merge joined. They run parallel
 to the choices of a schema.
 */
module VariantLabels {
  import opened Wrappers
  import opened ObjectSchema

  /** One label for a merged pair: the one there is, or both when they differ. */
  function Joined(left: Option<string>, right: Option<string>): Option<string> {
    match (left, right)
    case (None, None) => None
    case (Some(l), None) => Some(l)
    case (None, Some(r)) => Some(r)
    case (Some(l), Some(r)) => Some(if l == r then l else l + " + " + r)
  }

  function JoinedRow(left: Option<string>, right: seq<Option<string>>): seq<Option<string>> {
    seq(|right|, i requires 0 <= i < |right| => Joined(left, right[i]))
  }

  /** Every left label with every right label, left ones first. */
  function JoinedAll(left: seq<Option<string>>, right: seq<Option<string>>): seq<Option<string>> {
    if left == [] then [] else JoinedAll(left[..|left| - 1], right) + JoinedRow(left[|left| - 1], right)
  }

  /** Missing labels are filled in. */
  function Filled(labels: seq<Option<string>>, missing: Option<string>): seq<Option<string>> {
    seq(|labels|, i requires 0 <= i < |labels| => if labels[i].None? then missing else labels[i])
  }

  /** The part of a reference after its last slash. */
  ghost predicate IsLastPart(reference: string, name: string) {
    && '/' !in name
    && (name == reference || exists before :: reference == before + "/" + name)
  }

  ghost function LastPart(reference: string): (name: string)
    ensures IsLastPart(reference, name)
  {
    if reference == "" then
      ""
    else
      var front, c := reference[..|reference| - 1], reference[|reference| - 1];
      var name := LastPart(front);
      LastPartGrows(front, c, name);
      if c == '/' then "" else name + [c]
  }

  lemma LastPartGrows(front: string, c: char, name: string)
    requires IsLastPart(front, name)
    ensures IsLastPart(front + [c], if c == '/' then "" else name + [c])
  {
    if c == '/' {
      assert front + [c] == front + "/" + "";
    } else if name != front {
      var before :| front == before + "/" + name;
      assert front + [c] == before + "/" + (name + [c]);
    }
  }

  lemma LastPartIsOne(reference: string, a: string, b: string)
    requires IsLastPart(reference, a) && IsLastPart(reference, b)
    ensures a == b
  {
    EndsWithPart(reference, a);
    EndsWithPart(reference, b);
    if |a| < |b| {
      SlashWithin(reference, a, b);
    } else if |b| < |a| {
      SlashWithin(reference, b, a);
    }
  }

  lemma EndsWithPart(reference: string, name: string)
    requires IsLastPart(reference, name)
    ensures |name| <= |reference| && name == reference[|reference| - |name|..]
  {
  }

  lemma SlashWithin(reference: string, a: string, b: string)
    requires IsLastPart(reference, a) && |a| < |b| <= |reference| && b == reference[|reference| - |b|..]
    ensures '/' in b
  {
    var before :| reference == before + "/" + a;
    assert reference[|before|] == '/';
    assert b[|before| - (|reference| - |b|)] == '/';
  }

  /** The labels of a schema's choices, before a single one is dropped. */
  ghost function Labels<P>(definitions: Definitions<P>, s: Schema<P>, stack: set<string>): seq<Option<string>>
    decreases |definitions.Keys - stack|, s, 0
  {
    match s
    case Reference(r) =>
      if r in stack || r !in definitions then
        []
      else
        FollowingUsesRoom(definitions, stack, r);
        Filled(Labels(definitions, definitions[r], stack + {r}), Some(LastPart(r)))
    case NotAnObject(_) => []
    case Node(title, _, _, _, _, allOf, oneOf, anyOf) =>
      var own := [if allOf.Branches? || oneOf.Branches? || anyOf.Branches? then None else title];
      var all := if allOf.Branches? then AllLabels(definitions, allOf.list, stack, own) else own;
      var labels := if oneOf.Branches? then JoinedAll(all, AnyLabels(definitions, oneOf.list, stack))
                    else if anyOf.Branches? then JoinedAll(all, AnyLabels(definitions, anyOf.list, stack))
                    else all;
      if |labels| > 1 then Filled(labels, title) else labels
  }

  ghost function AllLabels<P>(definitions: Definitions<P>, branches: seq<Schema<P>>, stack: set<string>,
                              start: seq<Option<string>>): seq<Option<string>>
    decreases |definitions.Keys - stack|, branches
  {
    if branches == [] then
      start
    else
      JoinedAll(AllLabels(definitions, branches[..|branches| - 1], stack, start),
                Labels(definitions, branches[|branches| - 1], stack))
  }

  ghost function AnyLabels<P>(definitions: Definitions<P>, branches: seq<Schema<P>>, stack: set<string>)
    : seq<Option<string>>
    decreases |definitions.Keys - stack|, branches
  {
    if branches == [] then
      []
    else
      AnyLabels(definitions, branches[..|branches| - 1], stack) +
        BranchLabels(definitions, branches[|branches| - 1], stack)
  }

  ghost function BranchLabels<P>(definitions: Definitions<P>, s: Schema<P>, stack: set<string>): seq<Option<string>>
    decreases |definitions.Keys - stack|, s, 1
  {
    if OnlyNull(definitions, s, {}) == Some(true) then [] else Labels(definitions, s, stack)
  }

  /** Behind a reference, and among several variants of a titled node, every variant has a label. */
  lemma NamedOnesAreLabelled<P>(definitions: Definitions<P>, s: Schema<P>, stack: set<string>)
    requires s.Reference? || (s.Node? && s.title.Some? && |Labels(definitions, s, stack)| > 1)
    ensures None !in Labels(definitions, s, stack)
  {
  }

  lemma NoLabels<P>(definitions: Definitions<P>, stack: set<string>, start: seq<Option<string>>)
    ensures AllLabels(definitions, [], stack, start) == start
  {
  }

  lemma AllLabelsUnfold<P>(definitions: Definitions<P>, branches: seq<Schema<P>>, i: nat, stack: set<string>,
                           start: seq<Option<string>>)
    requires i < |branches|
    ensures AllLabels(definitions, branches[..0], stack, start) == start
    ensures AllLabels(definitions, branches[..i + 1], stack, start)
         == JoinedAll(AllLabels(definitions, branches[..i], stack, start), Labels(definitions, branches[i], stack))
  {
    hide Labels, JoinedAll;
    assert branches[..i + 1][..i] == branches[..i];
  }

  lemma AnyLabelsUnfold<P>(definitions: Definitions<P>, branches: seq<Schema<P>>, i: nat, stack: set<string>)
    requires i < |branches|
    ensures AnyLabels(definitions, branches[..i + 1], stack)
         == AnyLabels(definitions, branches[..i], stack) + BranchLabels(definitions, branches[i], stack)
  {
    hide Labels, BranchLabels;
    assert branches[..i + 1][..i] == branches[..i];
  }
}
