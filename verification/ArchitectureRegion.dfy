/**
 The generated package-architecture region of a document: located by its two comment markers, rewritten by
 the sync command and compared by the validation command.
 */
module ArchitectureRegion {
  import opened Wrappers
  import opened TextSearch

  function Begin(): string {
    Comment("!-- BEGIN GENERATED: ")
  }

  function End(): string {
    Comment("!-- END GENERATED: ")
  }

  /** The comment that names the region, in its two forms. */
  function Comment(opening: string): string {
    "<" + (opening + "workspace-package" + "-architecture --") + ">"
  }

  /** An HTML comment: angle brackets at its two ends and nowhere else. */
  ghost predicate Tag(m: string) {
    && |m| > 1 && m[0] == '<' && m[|m| - 1] == '>'
    && (forall x :: 0 < x < |m| ==> m[x] != '<')
    && (forall x :: 0 <= x < |m| - 1 ==> m[x] != '>')
  }

  ghost predicate Plain(s: string) {
    forall x :: 0 <= x < |s| ==> s[x] != '<' && s[x] != '>'
  }

  lemma CommentIsTag(opening: string)
    requires Plain(opening)
    ensures Tag(Comment(opening))
  {
    var inner := opening + "workspace-package" + "-architecture --";
    assert Plain("workspace-package") && Plain("-architecture --");
    assert Plain(inner);
    assert Comment(opening) == "<" + inner + ">";
  }

  lemma Tags()
    ensures Tag(Begin()) && Tag(End())
  {
    CommentIsTag("!-- BEGIN GENERATED: ");
    CommentIsTag("!-- END GENERATED: ");
  }

  /** The non-overlapping matches, left to right. */
  function MatchIndices(pattern: string, text: string, from: nat): seq<nat>
    requires pattern != "" && from <= |text|
    decreases |text| - from
  {
    match FindFrom(pattern, text, from)
    case None => []
    case Some(i) => [i] + MatchIndices(pattern, text, i + |pattern|)
  }

  /** generated_architecture_region_range. */
  function RegionRange(contents: string): Option<(nat, nat)> {
    Tags();
    var starts := MatchIndices(Begin(), contents, 0);
    var ends := MatchIndices(End(), contents, 0);
    if |starts| != 1 || |ends| != 1 || ends[0] <= starts[0] then None
    else Some((starts[0], ends[0] + |End()|))
  }

  ghost predicate Only(m: string, text: string, at: int) {
    OccursAt(m, text, at) && forall i :: OccursAt(m, text, i) ==> i == at
  }

  /** Tags cannot overlap, so no occurrence is skipped. */
  lemma {:induction false} MatchesAll(m: string, text: string, from: nat)
    requires Tag(m) && from <= |text|
    ensures forall i: int :: i in MatchIndices(m, text, from) <==> from <= i && OccursAt(m, text, i)
    decreases |text| - from
  {
    FindIsFirst(m, text, from);
    match FindFrom(m, text, from) {
      case None =>
      case Some(at) =>
        MatchesAll(m, text, at + |m|);
        forall i | at < i < at + |m| ensures !OccursAt(m, text, i) {
          assert text[i] == m[i - at];
        }
    }
  }

  lemma MatchesDiffer(m: string, text: string, from: nat)
    requires Tag(m) && from <= |text|
    ensures var all := MatchIndices(m, text, from); |all| > 1 ==> all[0] < all[1]
  {
    var found := FindFrom(m, text, from);
    if found.Some? && |MatchIndices(m, text, from)| > 1 {
      assert MatchIndices(m, text, found.value + |m|)[0] >= found.value + |m|;
    }
  }

  lemma SingleMatch(m: string, text: string, at: int)
    requires Tag(m)
    ensures Only(m, text, at) <==> MatchIndices(m, text, 0) == [at]
  {
    var all := MatchIndices(m, text, 0);
    hide OccursAt, Tag;
    MatchesAll(m, text, 0);
    MatchesDiffer(m, text, 0);
    assert forall k :: 0 <= k < |all| ==> all[k] in all;
    assert Only(m, text, at) ==> at in all;
  }

  /** The range is there exactly when each marker occurs once, the end marker later. */
  lemma RangeIsRegion(contents: string, start: nat, stop: nat)
    ensures RegionRange(contents) == Some((start, stop)) <==>
            Only(Begin(), contents, start) && Only(End(), contents, stop - |End()|) && start < stop - |End()|
  {
    hide Begin, End, Tag, Only, MatchIndices;
    Tags();
    SingleMatch(Begin(), contents, start);
    SingleMatch(End(), contents, stop - |End()|);
  }

  /** The same with the markers written out. */
  lemma RangeSpelled(contents: string, start: nat, stop: nat)
    ensures var begin := "<" + ("!-- BEGIN GENERATED: " + "workspace-package" + "-architecture --") + ">";
            var end := "<" + ("!-- END GENERATED: " + "workspace-package" + "-architecture --") + ">";
            RegionRange(contents) == Some((start, stop)) <==>
              Only(begin, contents, start) && Only(end, contents, stop - |end|) && start < stop - |end|
  {
    hide Only;
    RangeIsRegion(contents, start, stop);
  }

  /** replace_generated_architecture_region. */
  function Replace(contents: string, expected: string): Option<string> {
    RangeInside(contents);
    var range :- RegionRange(contents);
    Some(contents[..range.0] + expected + contents[range.1..])
  }

  lemma RangeInside(contents: string)
    ensures RegionRange(contents).Some? ==>
      RegionRange(contents).value.0 <= RegionRange(contents).value.1 <= |contents|
  {
    hide Begin, End, RegionRange;
    if RegionRange(contents).Some? {
      RangeIsRegion(contents, RegionRange(contents).value.0, RegionRange(contents).value.1);
    }
  }

  /** What the validation accepts: the region reads as expected. */
  predicate InSync(contents: string, expected: string) {
    RangeInside(contents);
    match RegionRange(contents)
    case None => false
    case Some((start, stop)) => contents[start..stop] == expected
  }

  /** A text that is one region from end to end. */
  predicate IsWholeRegion(s: string) {
    RegionRange(s) == Some((0, |s|))
  }

  /** With a tag at each of its two ends, a part shares no tag with what is around it. */
  lemma NoStraddle(m: string, before: string, part: string, after: string, i: int)
    requires Tag(m) && part != "" && part[0] == '<' && part[|part| - 1] == '>'
    requires OccursAt(m, before + part + after, i)
    ensures OccursAt(m, before, i) || OccursAt(m, part, i - |before|) || OccursAt(m, after, i - |before| - |part|)
  {
    var s, n := before + part + after, |before| + |part|;
    assert s[|before|] == '<' && s[n - 1] == '>';
    assert !(i < |before| < i + |m|);
    assert !(i < n < i + |m|);
    if i + |m| <= |before| {
      assert forall x :: 0 <= x < |before| ==> before[x] == s[x];
    } else if i >= n {
      assert forall x :: 0 <= x < |after| ==> after[x] == s[n + x];
    } else {
      assert forall x :: 0 <= x < |part| ==> part[x] == s[|before| + x];
    }
  }

  lemma OccursInPart(m: string, before: string, part: string, after: string, i: int)
    requires OccursAt(m, part, i)
    ensures OccursAt(m, before + part + after, |before| + i)
  {
  }

  lemma OnlyInPart(m: string, before: string, part: string, after: string, at: int)
    requires Tag(m) && part != "" && part[0] == '<' && part[|part| - 1] == '>'
    requires Only(m, part, at) && !Occurs(m, before) && !Occurs(m, after)
    ensures Only(m, before + part + after, |before| + at)
  {
    hide OccursAt, Tag;
    OccursInPart(m, before, part, after, at);
    forall i | OccursAt(m, before + part + after, i) ensures i == |before| + at {
      NoStraddle(m, before, part, after, i);
    }
  }

  /** Outside the region, the markers do not occur. */
  lemma OutsideIsPlain(m: string, contents: string, start: nat, stop: nat, at: int)
    requires start <= at <= at + |m| <= stop <= |contents| && m != "" && Only(m, contents, at)
    ensures !Occurs(m, contents[..start]) && !Occurs(m, contents[stop..])
  {
    hide OccursAt;
    if Occurs(m, contents[..start]) {
      var i :| OccursAt(m, contents[..start], i);
      OccursEarly(m, contents, start, i);
    }
    if Occurs(m, contents[stop..]) {
      var i :| OccursAt(m, contents[stop..], i);
      OccursLate(m, contents, stop, i);
    }
  }

  lemma OccursEarly(m: string, contents: string, start: nat, i: int)
    requires start <= |contents| && OccursAt(m, contents[..start], i)
    ensures OccursAt(m, contents, i) && 0 <= i <= start - |m|
  {
    OccursInPart(m, "", contents[..start], contents[start..], i);
    assert "" + contents[..start] + contents[start..] == contents;
  }

  lemma OccursLate(m: string, contents: string, stop: nat, i: int)
    requires stop <= |contents| && OccursAt(m, contents[stop..], i)
    ensures OccursAt(m, contents, stop + i) && 0 <= i
  {
    OccursInPart(m, contents[..stop], contents[stop..], "", i);
    assert contents[..stop] + contents[stop..] + "" == contents;
  }

  lemma RegionEnds(s: string)
    requires IsWholeRegion(s)
    ensures |s| > |End()| && s[0] == '<' && s[|s| - 1] == '>'
    ensures Only(Begin(), s, 0) && Only(End(), s, |s| - |End()|)
  {
    Tags();
    RangeIsRegion(s, 0, |s|);
    hide Begin, End, Comment;
    assert s[0] == Begin()[0];
    assert s[|s| - 1] == End()[|End()| - 1];
  }

  lemma ReplacedRange(contents: string, expected: string, start: nat, stop: nat)
    requires IsWholeRegion(expected) && RegionRange(contents) == Some((start, stop)) && start <= stop <= |contents|
    ensures RegionRange(contents[..start] + expected + contents[stop..]) == Some((start, start + |expected|))
  {
    hide Begin, End, Tag, Only, RegionRange, IsWholeRegion, Occurs;
    Tags();
    RegionEnds(expected);
    RangeIsRegion(contents, start, stop);
    MarkersOutside(contents, start, stop);
    var before, after := contents[..start], contents[stop..];
    OnlyInPart(Begin(), before, expected, after, 0);
    OnlyInPart(End(), before, expected, after, |expected| - |End()|);
    RangeIsRegion(before + expected + after, start, start + |expected|);
  }

  lemma MarkersOutside(contents: string, start: nat, stop: nat)
    requires start <= stop <= |contents| && RegionRange(contents) == Some((start, stop))
    ensures !Occurs(Begin(), contents[..start]) && !Occurs(Begin(), contents[stop..])
    ensures !Occurs(End(), contents[..start]) && !Occurs(End(), contents[stop..])
  {
    RangeIsRegion(contents, start, stop);
    Tags();
    hide Begin, End, Comment, RegionRange, Occurs;
    var at := stop - |End()|;
    assert contents[start] == '<' && contents[at] == '<';
    assert start + |Begin()| <= at;
    OutsideIsPlain(Begin(), contents, start, stop, start);
    OutsideIsPlain(End(), contents, start, stop, at);
  }

  /** Only a text that is one whole region can ever be found in sync. */
  lemma InSyncIsWhole(contents: string, expected: string)
    requires InSync(contents, expected)
    ensures IsWholeRegion(expected)
  {
    var (start, stop) := RegionRange(contents).value;
    RangeInside(contents);
    RangeIsRegion(contents, start, stop);
    Tags();
    hide Begin, End, Comment, RegionRange, Occurs;
    assert contents[start] == '<' && contents[stop - |End()|] == '<';
    assert start + |Begin()| <= stop - |End()|;
    OnlyInSlice(Begin(), contents, start, stop, start);
    OnlyInSlice(End(), contents, start, stop, stop - |End()|);
    RangeIsRegion(expected, 0, |expected|);
  }

  lemma OnlyInSlice(m: string, text: string, start: nat, stop: nat, at: int)
    requires Only(m, text, at) && start <= at <= at + |m| <= stop <= |text|
    ensures Only(m, text[start..stop], at - start)
  {
    var part := text[start..stop];
    assert OccursAt(m, part, at - start) by {
      assert forall x :: 0 <= x < |part| ==> part[x] == text[start + x];
    }
    forall i | OccursAt(m, part, i) ensures i == at - start {
      OccursInPart(m, text[..start], part, text[stop..], i);
      assert text[..start] + part + text[stop..] == text;
    }
  }

  /**
   After the sync the validation is satisfied exactly when the generated text is one whole region, with each
   marker once and at its ends; syncing again then changes nothing.
   */
  lemma SyncThenCheck(contents: string, expected: string)
    requires RegionRange(contents).Some?
    ensures var out := Replace(contents, expected).value;
      && (InSync(out, expected) <==> IsWholeRegion(expected))
      && (IsWholeRegion(expected) ==> Replace(out, expected) == Some(out))
  {
    hide RegionRange, IsWholeRegion;
    RangeInside(contents);
    var (start, stop) := RegionRange(contents).value;
    var out := contents[..start] + expected + contents[stop..];
    if IsWholeRegion(expected) {
      ReplacedRange(contents, expected, start, stop);
      assert out[start..start + |expected|] == expected;
      assert out[..start] == contents[..start] && out[start + |expected|..] == contents[stop..];
    } else if InSync(out, expected) {
      InSyncIsWhole(out, expected);
    }
  }

  /** What stands around the region is kept, whatever it is, and the region gives way to the expected text. */
  lemma ReplaceKeepsTheRest(before: string, region: string, after: string, expected: string)
    requires IsWholeRegion(region)
    requires !Occurs(Begin(), before) && !Occurs(Begin(), after) && !Occurs(End(), before) && !Occurs(End(), after)
    ensures Replace(before + region + after, expected) == Some(before + expected + after)
    ensures InSync(before + region + after, expected) <==> expected == region
  {
    hide Begin, End, Tag, Only, RegionRange, IsWholeRegion, Occurs;
    Tags();
    RegionEnds(region);
    OnlyInPart(Begin(), before, region, after, 0);
    OnlyInPart(End(), before, region, after, |region| - |End()|);
    RangeIsRegion(before + region + after, |before|, |before| + |region|);
    var contents := before + region + after;
    assert contents[..|before|] == before && contents[|before| + |region|..] == after;
    assert contents[|before|..|before| + |region|] == region;
  }
}
