/**
 When a rendered schema stays as it is. A pass never adds begin markers, and it removes some exactly when a body it
 replaces mentions one; so a second rendering succeeds exactly when no region was nested in the first place.
 */
module SqlStability {
  import opened Wrappers
  import opened TextSearch
  import opened SqlRegions
  import opened SqlRendering

  // ---------- Counting markers ----------

  /** How many occurrences start before position n. */
  function CountBefore(m: string, s: string, n: nat): nat {
    if n == 0 then 0 else CountBefore(m, s, n - 1) + if OccursAt(m, s, n - 1) then 1 else 0
  }

  function Count(m: string, s: string): nat {
    CountBefore(m, s, |s|)
  }

  lemma {:induction false} CountSome(m: string, s: string, n: nat)
    ensures CountBefore(m, s, n) > 0 <==> exists i :: 0 <= i < n && OccursAt(m, s, i)
  {
    hide OccursAt;
    if n > 0 {
      CountSome(m, s, n - 1);
    }
  }

  lemma CountedIsThere(m: string, s: string)
    requires m != ""
    ensures Count(m, s) > 0 <==> Occurs(m, s)
  {
    CountSome(m, s, |s|);
    if Occurs(m, s) {
      var i :| OccursAt(m, s, i);
      assert 0 <= i < |s|;
    }
  }

  lemma {:induction false} CountLeft(m: string, p: string, q: string, n: nat)
    requires n <= |p|
    ensures CountBefore(m, p + q, n) >= CountBefore(m, p, n)
    ensures Marker(m) && WholeLines(p) ==> CountBefore(m, p + q, n) == CountBefore(m, p, n)
  {
    if n > 0 {
      CountLeft(m, p, q, n - 1);
      var i, s := n - 1, p + q;
      assert OccursAt(p, s, 0);
      if i + |m| <= |p| {
        OccursWithin(m, p, s, 0, i);
      } else if Marker(m) && WholeLines(p) {
        assert s[|p| - 1] == '\n';
        assert !OccursAt(m, s, i);
      }
    }
  }

  lemma {:induction false} CountRight(m: string, p: string, q: string, n: nat)
    requires n <= |q| && m != ""
    ensures CountBefore(m, p + q, |p| + n) == CountBefore(m, p + q, |p|) + CountBefore(m, q, n)
  {
    if n > 0 {
      CountRight(m, p, q, n - 1);
      var i, s := n - 1, p + q;
      assert OccursAt(q, s, |p|);
      if i + |m| <= |q| {
        OccursWithin(m, q, s, |p|, |p| + i);
      }
    }
  }

  /** Parts hold no more markers than the whole, and exactly as many when the first part is whole lines. */
  lemma CountParts(m: string, p: string, q: string)
    requires m != ""
    ensures Count(m, p + q) >= Count(m, p) + Count(m, q)
    ensures Marker(m) && WholeLines(p) ==> Count(m, p + q) == Count(m, p) + Count(m, q)
  {
    CountLeft(m, p, q, |p|);
    CountRight(m, p, q, |q|);
  }

  /** Exchanging whole lines changes the count by what they hold. */
  lemma CountExchange(m: string, a: string, body: string, other: string, z: string)
    requires Marker(m) && WholeLines(a) && WholeLines(body) && WholeLines(other) && !Occurs(m, other)
    ensures Count(m, a + body + z) == Count(m, a + other + z) + Count(m, body)
  {
    assert m != "";
    hide Count, WholeLines, Occurs, Marker;
    CountParts(m, a, body + z);
    CountParts(m, body, z);
    CountParts(m, a, other + z);
    CountParts(m, other, z);
    CountedIsThere(m, other);
    assert a + body + z == a + (body + z) && a + other + z == a + (other + z);
  }

  /** A text with so many regions holds at least so many begin markers. */
  lemma {:induction false} RegionsAreCounted(b: string, e: string, regions: seq<Region>, tail: string)
    requires b != ""
    ensures Count(b, Render(b, e, regions) + tail) >= |regions|
  {
    hide Count, Text, Occurs;
    if regions != [] {
      var init, r := regions[..|regions| - 1], regions[|regions| - 1];
      RegionsAreCounted(b, e, init, "");
      assert Render(b, e, init) + "" == Render(b, e, init);
      BeginOccurs(b, e, r, tail);
      CountedIsThere(b, Text(b, e, r) + tail);
      CountParts(b, Render(b, e, init), Text(b, e, r) + tail);
      assert Render(b, e, init) + (Text(b, e, r) + tail) == Render(b, e, regions) + tail;
    }
  }

  // ---------- A pass over the regions ----------

  ghost predicate Clean(lines: seq<string>, m: string) {
    (forall i :: 0 <= i < |lines| ==> OneLine(lines[i])) && !Mentions(lines, m)
  }

  lemma StepCounts(m: string, c: string, d: string, passed: seq<Region>, tail: string, lines: seq<string>, k: nat)
    requires Marker(m) && Clean(lines, m) && k < |passed|
    requires forall i :: 0 <= i < |passed| ==> IsRegion(c, d, passed[i], i == 0)
    ensures Count(m, Mixed(c, d, passed, lines, k, tail)) ==
            Count(m, Mixed(c, d, passed, lines, k + 1, tail)) + Count(m, passed[k].body)
  {
    hide Count, Render, Marker, Occurs, Mixed, Indented, OneLine, Spaces;
    var r, front := passed[k], Render(c, d, RewriteAll(passed[..k], lines));
    assert IsRegion(c, d, r, k == 0);
    MixedStep(c, d, passed, lines, k, tail);
    IndentedMarks(m, r.indent, lines);
    var a := front + Opening(c, r);
    assert a[|a| - 1] == '\n';
    CountExchange(m, a, r.body, Indented(r.indent, lines), r.indent + d + (Render(c, d, passed[k + 1..]) + tail));
  }

  /** A pass never adds a marker, and removes none only where no replaced body mentions it. */
  lemma PassCounts(m: string, c: string, d: string, contents: string, passed: seq<Region>, tail: string,
                   lines: seq<string>)
    requires Marker(m) && Clean(lines, m) && Whole(c, d, contents, passed, tail)
    ensures var out := Render(c, d, RewriteAll(passed, lines)) + tail;
      && Count(m, out) <= Count(m, contents)
      && (Count(m, out) == Count(m, contents) ==> NoneMentions(passed, m))
  {
    assert m != "";
    hide Count, Render, Marker, Occurs, Mixed, IsRegion, Clean;
    MixedEnds(c, d, passed, lines, tail);
    for k := 0 to |passed|
      invariant Count(m, Mixed(c, d, passed, lines, k, tail)) <= Count(m, contents)
      invariant Count(m, Mixed(c, d, passed, lines, k, tail)) == Count(m, contents) ==>
        forall i :: 0 <= i < k ==> !Occurs(m, passed[i].body)
    {
      StepCounts(m, c, d, passed, tail, lines, k);
      CountedIsThere(m, passed[k].body);
    }
  }

  /** A pass can be taken back: what is placed after it was placed before it. */
  lemma PassKept(b: string, e: string, contents: string, regions: seq<Region>, tail: string,
                 c: string, d: string, passed: seq<Region>, end: string, lines: seq<string>)
    returns (others: seq<Region>, rest: string)
    requires Marker(b) && Marker(e) && Marker(c) && Marker(d) && Apart(b, c) && Apart(e, c)
    requires Whole(c, d, contents, passed, end)
    requires Whole(b, e, Render(c, d, RewriteAll(passed, lines)) + end, regions, tail)
    requires NoneMentions(regions, c) && NoneMentions(passed, b) && Clean(lines, b)
    ensures Whole(b, e, contents, others, rest) && SameBodies(regions, others)
  {
    hide Render, Marker, Apart, Occurs, IsRegion, Mixed, Clean;
    others, rest := regions, tail;
    MixedEnds(c, d, passed, lines, end);
    for k := |passed| downto 0
      invariant Whole(b, e, Mixed(c, d, passed, lines, k, end), others, rest) && SameBodies(regions, others)
    {
      others, rest := StepBack(b, e, others, rest, c, d, passed, end, lines, k);
    }
  }

  lemma StepBack(b: string, e: string, regions: seq<Region>, tail: string,
                 c: string, d: string, passed: seq<Region>, end: string, lines: seq<string>, k: nat)
    returns (others: seq<Region>, rest: string)
    requires Marker(b) && Marker(e) && Marker(c) && Marker(d) && Apart(b, c) && Apart(e, c) && k < |passed|
    requires forall i :: 0 <= i < |passed| ==> IsRegion(c, d, passed[i], i == 0)
    requires Whole(b, e, Mixed(c, d, passed, lines, k + 1, end), regions, tail)
    requires NoneMentions(regions, c) && NoneMentions(passed, b) && Clean(lines, b)
    ensures Whole(b, e, Mixed(c, d, passed, lines, k, end), others, rest) && SameBodies(regions, others)
  {
    hide Render, Marker, Apart, Occurs, Mixed, Opening, Indented, OpensBody, WholeLines, OneLine, Spaces;
    var r, front := passed[k], Render(c, d, RewriteAll(passed[..k], lines));
    assert IsRegion(c, d, r, k == 0);
    MixedStep(c, d, passed, lines, k, end);
    if k == 0 {
      assert RewriteAll(passed[..0], lines) == [];
      RenderNone(c, d);
    }
    OpeningOpens(c, r, front);
    IndentedMarks(b, r.indent, lines);
    var f := |front| + |r.lead|;
    others, rest := SpliceKeeps(b, e, c, true, regions, tail, front + Opening(c, r), f, f + |r.indent|,
                                Indented(r.indent, lines), r.body,
                                r.indent + d + (Render(c, d, passed[k + 1..]) + end));
  }

  // ---------- All labels ----------

  /** No expected line mentions any label's begin marker. */
  ghost predicate LinesClean(specs: seq<Spec>) {
    forall i, j :: 0 <= i < |specs| && 0 <= j < |specs| ==> !Mentions(LinesOf(specs[i]), BeginOf(specs[j]))
  }

  /** Each label's begin marker occurs as often as the label has regions. */
  ghost predicate CountsMatch(specs: seq<Spec>, s: string) {
    forall j :: 0 <= j < |specs| ==> Count(BeginOf(specs[j]), s) == specs[j].count
  }

  /** No begin marker was added, of any label. */
  ghost predicate NoMore(specs: seq<Spec>, s: string, t: string) {
    forall j :: 0 <= j < |specs| ==> Count(BeginOf(specs[j]), t) <= Count(BeginOf(specs[j]), s)
  }

  ghost predicate AsMany(specs: seq<Spec>, s: string, t: string) {
    forall j :: 0 <= j < |specs| ==> Count(BeginOf(specs[j]), t) == Count(BeginOf(specs[j]), s)
  }

  /** What a pass found, and what that says about the markers. */
  lemma PassFound(specs: seq<Spec>, i: nat, s: string, out: string) returns (passed: seq<Region>, tail: string)
    requires Compatible(specs) && LinesClean(specs) && i < |specs| && Pass(specs[i], s, out)
    ensures Whole(BeginOf(specs[i]), EndOf(specs[i]), s, passed, tail) && |passed| == specs[i].count
    ensures out == Render(BeginOf(specs[i]), EndOf(specs[i]), RewriteAll(passed, LinesOf(specs[i]))) + tail
    ensures NoMore(specs, s, out) && Count(BeginOf(specs[i]), s) >= specs[i].count
    ensures AsMany(specs, s, out) ==> forall j :: 0 <= j < |specs| ==> NoneMentions(passed, BeginOf(specs[j]))
  {
    hide BeginOf, EndOf, LinesOf, Whole, Marker, OneLine, Render, Count, Occurs, Apart, NoneMentions;
    var x := specs[i];
    BeginsAndEnds(x, x);
    passed, tail :| Whole(BeginOf(x), EndOf(x), s, passed, tail) && |passed| == x.count
      && out == Render(BeginOf(x), EndOf(x), RewriteAll(passed, LinesOf(x))) + tail;
    WholeIsCounted(x, s, passed, tail);
    forall j | 0 <= j < |specs|
      ensures Count(BeginOf(specs[j]), out) <= Count(BeginOf(specs[j]), s)
      ensures Count(BeginOf(specs[j]), out) == Count(BeginOf(specs[j]), s) ==> NoneMentions(passed, BeginOf(specs[j]))
    {
      BeginsAndEnds(specs[j], x);
      PassCounts(BeginOf(specs[j]), BeginOf(x), EndOf(x), s, passed, tail, LinesOf(x));
    }
  }

  lemma WholeIsCounted(x: Spec, s: string, passed: seq<Region>, tail: string)
    requires OneLine(x.name) && Whole(BeginOf(x), EndOf(x), s, passed, tail)
    ensures Count(BeginOf(x), s) >= |passed|
  {
    hide Count, Render;
    RegionsAreCounted(BeginOf(x), EndOf(x), passed, tail);
  }

  /** A rendering that succeeds had enough of each marker, and added none. */
  lemma {:induction false} RenderedCounts(specs: seq<Spec>, n: nat, s: string, out: string)
    requires Compatible(specs) && LinesClean(specs) && n <= |specs| && Rendered(specs[..n], s, out)
    ensures NoMore(specs, s, out)
    ensures forall j :: 0 <= j < n ==> Count(BeginOf(specs[j]), s) >= specs[j].count
  {
    hide Compatible, LinesClean, Pass, Count, BeginOf;
    if n > 0 {
      assert specs[..n][..n - 1] == specs[..n - 1];
      var between := LastPass(specs, n - 1, s, out);
      RenderedCounts(specs, n - 1, s, between);
      var passed, tail := PassFound(specs, n - 1, between, out);
    }
  }

  /** If no marker was lost, every pass found its regions in place, and they were in place from the start. */
  lemma {:induction false} NothingLostIsPlaced(specs: seq<Spec>, n: nat, s: string, out: string)
    requires Compatible(specs) && LinesClean(specs) && n <= |specs| && Rendered(specs[..n], s, out)
    requires AsMany(specs, s, out)
    ensures forall i :: 0 <= i < n ==> Placed(specs, i, s)
    ensures forall i :: 0 <= i < |specs| && Placed(specs, i, out) ==> Placed(specs, i, s)
  {
    hide Compatible, LinesClean, Pass, Count, BeginOf, Placed;
    if n > 0 {
      assert specs[..n][..n - 1] == specs[..n - 1];
      var between := LastPass(specs, n - 1, s, out);
      RenderedCounts(specs, n - 1, s, between);
      var passed, tail := PassFound(specs, n - 1, between, out);
      assert AsMany(specs, s, between) && AsMany(specs, between, out);
      NothingLostIsPlaced(specs, n - 1, s, between);
      FoundIsPlaced(specs, n - 1, between, passed, tail);
      forall i | 0 <= i < |specs| && i != n - 1 && Placed(specs, i, out) ensures Placed(specs, i, between) {
        PlacedBefore(specs, i, n - 1, between, out, passed, tail);
      }
    }
  }

  lemma FoundIsPlaced(specs: seq<Spec>, i: nat, s: string, passed: seq<Region>, tail: string)
    requires i < |specs| && Whole(BeginOf(specs[i]), EndOf(specs[i]), s, passed, tail) && |passed| == specs[i].count
    requires forall j :: 0 <= j < |specs| ==> NoneMentions(passed, BeginOf(specs[j]))
    ensures Placed(specs, i, s)
  {
    hide BeginOf, EndOf, Whole, NoneMentions;
    assert PlacedAs(specs, i, s, passed, tail);
  }

  lemma PlacedBefore(specs: seq<Spec>, i: nat, j: nat, s: string, out: string, passed: seq<Region>, end: string)
    requires Compatible(specs) && LinesClean(specs) && i < |specs| && j < |specs| && i != j && Placed(specs, i, out)
    requires Whole(BeginOf(specs[j]), EndOf(specs[j]), s, passed, end)
    requires out == Render(BeginOf(specs[j]), EndOf(specs[j]), RewriteAll(passed, LinesOf(specs[j]))) + end
    requires forall k :: 0 <= k < |specs| ==> NoneMentions(passed, BeginOf(specs[k]))
    ensures Placed(specs, i, s)
  {
    hide BeginOf, EndOf, LinesOf, Whole, Marker, OneLine, Render, Apart, Occurs;
    var x, y := specs[i], specs[j];
    BeginsAndEnds(x, y);
    BeginsAndEnds(y, x);
    var regions, tail :| PlacedAs(specs, i, out, regions, tail);
    var others, rest := PassKept(BeginOf(x), EndOf(x), s, regions, tail, BeginOf(y), EndOf(y), passed, end, LinesOf(y));
    assert PlacedAs(specs, i, s, others, rest);
  }

  /**
   A rendering that succeeds once succeeds again exactly when every label's regions are in place in the contents,
   none inside another; and then it changes nothing. Begin markers are taken to occur only as regions.
   */
  lemma StableExactlyWhenPlaced(specs: seq<Spec>, contents: string, out: string)
    requires Compatible(specs) && LinesClean(specs) && CountsMatch(specs, contents) && Rendered(specs, contents, out)
    ensures Rendered(specs, out, out) <==> AllPlaced(specs, contents)
    ensures (exists again :: Rendered(specs, out, again)) <==> AllPlaced(specs, contents)
  {
    hide Compatible, LinesClean, Placed, Count, Rendered, BeginOf;
    assert specs[..|specs|] == specs;
    if AllPlaced(specs, contents) {
      RenderIsIdempotent(specs, contents, out, out);
    }
    forall again | Rendered(specs, out, again) ensures AllPlaced(specs, contents) {
      RenderedCounts(specs, |specs|, contents, out);
      RenderedCounts(specs, |specs|, out, again);
      assert AsMany(specs, contents, out);
      NothingLostIsPlaced(specs, |specs|, contents, out);
    }
  }
}
