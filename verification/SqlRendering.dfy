/**
 Rendering all labels of the storage schema, one after the other. Regions of different labels that are not
 nested do not disturb each other, so a rendered schema is found unchanged by the drift check.
 */
module SqlRendering {
  import opened Wrappers
  import opened TextSearch
  import opened SqlRegions

  /** Neither marker starts with the other. */
  predicate Apart(b: string, c: string) {
    !(b <= c) && !(c <= b)
  }

  // ---------- Where another label's body can lie ----------

  /** The line feeds of a region after its lead: the one that ends the begin line, and those of the body. */
  lemma RegionLineFeeds(b: string, e: string, s: string, r: Region, x: nat)
    requires Marker(b) && Marker(e) && Laid(b, e, s, 0, r) && OneLine(r.rest) && Spaces(r.indent)
    requires |r.lead| <= x < EndAt(b, r, 0) + |e| && s[x] == '\n'
    ensures BodyAt(b, r, 0) - 1 <= x < BodyAt(b, r, 0) + |r.body|
  {
  }

  /** A line that reads: spaces, the marker `c`, anything. It runs from `f` to just before `n`. */
  ghost predicate MarkedLine(s: string, c: string, f: nat, at: nat, n: nat) {
    && f <= at && at + |c| < n <= |s| && s[n - 1] == '\n'
    && (f == 0 || s[f - 1] == '\n')
    && (forall x :: f <= x < n - 1 ==> s[x] != '\n')
    && (forall x :: f <= x < at ==> s[x] == ' ')
    && OccursAt(c, s, at)
  }

  /** Such a line is not inside a region of another label, unless its body mentions the marker. */
  lemma OutsideRegion(b: string, e: string, c: string, s: string, r: Region, f: nat, at: nat, n: nat)
    requires Marker(b) && Marker(e) && Marker(c) && Apart(b, c)
    requires Laid(b, e, s, 0, r) && OneLine(r.rest) && Spaces(r.indent) && WholeLines(r.lead) && !Occurs(c, r.body)
    requires MarkedLine(s, c, f, at, n)
    ensures n <= |r.lead| || n > EndAt(b, r, 0) + |e|
  {
    if |r.lead| < n <= EndAt(b, r, 0) + |e| {
      RegionLineFeeds(b, e, s, r, n - 1);
      if n == BodyAt(b, r, 0) {
        SameLine(b, e, c, s, r, f, at, n);
      } else {
        assert s[BodyAt(b, r, 0) - 1] == '\n';
        assert f >= BodyAt(b, r, 0);
        OccursWithin(c, r.body, s, BodyAt(b, r, 0), at);
      }
    }
  }

  lemma SameLine(b: string, e: string, c: string, s: string, r: Region, f: nat, at: nat, n: nat)
    requires Marker(b) && Marker(c)
    requires Laid(b, e, s, 0, r) && OneLine(r.rest) && Spaces(r.indent) && WholeLines(r.lead)
    requires MarkedLine(s, c, f, at, n) && n == BodyAt(b, r, 0)
    ensures b <= c || c <= b
  {
    var start, mark := |r.lead|, BeginAt(r, 0);
    assert start > 0 ==> s[start - 1] == '\n';
    forall x | start <= x < n - 1 ensures s[x] != '\n' {
      if x < mark {
        assert s[x] == r.indent[x - start];
      } else if x < mark + |b| {
        assert s[x] == b[x - mark];
      } else {
        assert s[x] == r.rest[x - mark - |b|];
      }
    }
    assert f == start;
    assert s[at] == '-' && s[mark] == '-';
    assert forall x :: start <= x < mark ==> s[x] == ' ';
    assert at == mark;
    PrefixesOfOne(b, c, s, mark);
  }

  lemma PrefixesOfOne(b: string, c: string, s: string, at: nat)
    requires OccursAt(b, s, at) && OccursAt(c, s, at)
    ensures b <= c || c <= b
  {
    forall i | 0 <= i < |b| && i < |c| ensures b[i] == c[i] {
      assert s[at + i] == b[i];
    }
  }

  /** Nor does a stretch of whole lines without the begin marker reach from a lead into its region. */
  lemma WithinLead(b: string, e: string, s: string, r: Region, n: nat, body: string)
    requires Marker(b) && Marker(e) && Laid(b, e, s, 0, r) && OneLine(r.rest) && Spaces(r.indent)
    requires n <= |r.lead| && OccursAt(body, s, n) && WholeLines(body) && !Occurs(b, body)
    ensures n + |body| <= |r.lead|
  {
    var to := n + |body|;
    if to > |r.lead| {
      assert s[to - 1] == '\n';
      if to - 1 < EndAt(b, r, 0) + |e| {
        RegionLineFeeds(b, e, s, r, to - 1);
      }
      OccursWithin(b, body, s, n, BeginAt(r, 0));
    }
  }

  // ---------- Replacing one body of another label ----------

  lemma LineSplit(m: string, p: string, q: string)
    requires Marker(m) && WholeLines(p)
    ensures Occurs(m, p + q) <==> Occurs(m, p) || Occurs(m, q)
  {
    var s := p + q;
    assert OccursAt(p, s, 0) && OccursAt(q, s, |p|);
    assert p != "" ==> s[|p| - 1] == '\n';
    forall i | OccursAt(m, s, i) ensures Occurs(m, p) || Occurs(m, q) {
      if i + |m| <= |p| {
        OccursWithin(m, p, s, 0, i);
      } else {
        assert i >= |p|;
        OccursWithin(m, q, s, |p|, i);
      }
    }
    forall i | OccursAt(m, p, i) ensures Occurs(m, s) {
      OccursWithin(m, p, s, 0, i);
    }
    forall i | OccursAt(m, q, i) ensures Occurs(m, s) {
      OccursWithin(m, q, s, |p|, |p| + i);
    }
  }

  /** Whole lines exchanged for others without the marker bring no marker in. */
  lemma SwapLines(m: string, a: string, body: string, other: string, z: string)
    requires Marker(m) && WholeLines(a) && WholeLines(body) && WholeLines(other)
    requires !Occurs(m, a + body + z) && !Occurs(m, other)
    ensures !Occurs(m, a + other + z)
  {
    hide Occurs, Marker;
    LineSplit(m, a, body + z);
    LineSplit(m, body, z);
    LineSplit(m, a, other + z);
    LineSplit(m, other, z);
    assert a + body + z == a + (body + z) && a + other + z == a + (other + z);
  }

  /** The text before a body: whole lines, of which the last holds the begin marker `c`. */
  ghost predicate OpensBody(a: string, c: string, f: nat, at: nat) {
    MarkedLine(a, c, f, at, |a|)
  }

  /** The regions as they were, but for their leads. */
  ghost predicate SameBodies(regions: seq<Region>, others: seq<Region>) {
    |regions| == |others| && forall i :: 0 <= i < |regions| ==> others[i] == regions[i].(lead := others[i].lead)
  }

  ghost predicate NoneMentions(regions: seq<Region>, c: string) {
    forall i :: 0 <= i < |regions| ==> !Occurs(c, regions[i].body)
  }

  /** The rest of a text: regions of which only the very first of the text may have an empty lead, and a tail. */
  ghost predicate Rest(b: string, e: string, s: string, first: bool, regions: seq<Region>, tail: string) {
    && s == Render(b, e, regions) + tail
    && (forall i :: 0 <= i < |regions| ==> IsRegion(b, e, regions[i], first && i == 0))
    && !Occurs(b, tail)
  }

  lemma {:induction false} RenderCons(b: string, e: string, regions: seq<Region>)
    requires regions != []
    ensures Render(b, e, regions) == Text(b, e, regions[0]) + Render(b, e, regions[1..])
  {
    hide Text;
    var n := |regions| - 1;
    if n == 0 {
      assert regions[..n] == [] && regions[1..] == [];
    } else {
      RenderCons(b, e, regions[..n]);
      assert regions[..n][1..] == regions[1..][..n - 1];
      assert regions[1..][n - 1] == regions[n];
    }
  }

  /** Exchanging a body of another label keeps the regions of this one, and their bodies. */
  lemma {:induction false} SpliceKeeps(b: string, e: string, c: string, first: bool, regions: seq<Region>, tail: string,
                                       a: string, f: nat, at: nat, body: string, other: string, z: string)
    returns (others: seq<Region>, rest: string)
    requires Marker(b) && Marker(e) && Marker(c) && Apart(b, c) && Apart(e, c) && NoneMentions(regions, c)
    requires OpensBody(a, c, f, at) && WholeLines(body) && WholeLines(other) && !Occurs(b, body) && !Occurs(b, other)
    requires Rest(b, e, a + body + z, first, regions, tail)
    ensures Rest(b, e, a + other + z, first, others, rest) && SameBodies(regions, others)
    decreases |regions|
  {
    hide Occurs, Marker, Apart, Render, Text, IsRegion, WholeLines;
    var s := a + body + z;
    if regions == [] {
      RenderNone(b, e);
      assert "" + tail == tail && s == tail;
      OpensWhole(a, c, f, at);
      SwapLines(b, a, body, other, z);
      others, rest := [], a + other + z;
    } else {
      var r := regions[0];
      var more := Render(b, e, regions[1..]) + tail;
      RenderCons(b, e, regions);
      assert s == Text(b, e, r) + more;
      if |a| <= |r.lead| {
        var lead, left := SpliceLead(b, e, c, first, r, more, a, f, at, body, other, z);
        others, rest := [r.(lead := lead)] + regions[1..], tail;
        RenderCons(b, e, others);
        assert others[1..] == regions[1..];
      } else {
        var a' := PassRegion(b, e, c, first, r, more, a, f, at, body, z);
        var d := |Text(b, e, r)|;
        var tails;
        tails, rest := SpliceKeeps(b, e, c, false, regions[1..], tail, a', f - d, at - d, body, other, z);
        others := [r] + tails;
        RenderCons(b, e, others);
        assert others[1..] == tails;
        assert a + other + z == Text(b, e, r) + (a' + other + z);
      }
    }
  }

  lemma RenderNone(b: string, e: string)
    ensures Render(b, e, []) == ""
  {
  }

  lemma OpensWhole(a: string, c: string, f: nat, at: nat)
    requires OpensBody(a, c, f, at)
    ensures WholeLines(a) && a != ""
  {
  }

  /** The body lies in the lead of the next region. */
  lemma SpliceLead(b: string, e: string, c: string, first: bool, r: Region, more: string,
                   a: string, f: nat, at: nat, body: string, other: string, z: string)
    returns (lead: string, left: string)
    requires Marker(b) && Marker(e) && IsRegion(b, e, r, first) && a + body + z == Text(b, e, r) + more
    requires OpensBody(a, c, f, at) && WholeLines(body) && WholeLines(other) && !Occurs(b, body) && !Occurs(b, other)
    requires |a| <= |r.lead|
    ensures IsRegion(b, e, r.(lead := lead), first)
    ensures a + other + z == Text(b, e, r.(lead := lead)) + more
  {
    OpensWhole(a, c, f, at);
    var s, n := a + body + z, |a|;
    LaidAtStart(b, e, r, more);
    assert OccursAt(body, s, n);
    WithinLead(b, e, s, r, n, body);
    left := r.lead[n + |body|..];
    lead := a + other + left;
    LeadParts(r.lead, s, a, body, z, left);
    hide OccursAt, Occurs, Laid, Text, Marker;
    SwapLines(b, a, body, other, left);
    TextOfLead(b, e, r, lead);
    AfterLead(b, e, r, more, a, body, z, left);
    var after := AfterLeadText(b, e, r);
    assert a + other + (left + after + more) == a + other + left + after + more;
  }

  function AfterLeadText(b: string, e: string, r: Region): string {
    r.indent + b + r.rest + "\n" + r.body + r.indent + e
  }

  lemma TextOfLead(b: string, e: string, r: Region, lead: string)
    ensures Text(b, e, r.(lead := lead)) == lead + AfterLeadText(b, e, r)
  {
  }

  lemma LeadParts(lead: string, s: string, a: string, body: string, z: string, left: string)
    requires OccursAt(lead, s, 0) && s == a + body + z && |a| + |body| <= |lead| && left == lead[|a| + |body|..]
    ensures lead == a + body + left
  {
    assert forall x :: 0 <= x < |lead| ==> lead[x] == s[x];
  }

  lemma AfterLead(b: string, e: string, r: Region, more: string, a: string, body: string, z: string, left: string)
    requires r.lead == a + body + left && a + body + z == Text(b, e, r) + more
    ensures z == left + AfterLeadText(b, e, r) + more
  {
    TextOfLead(b, e, r, r.lead);
    var after := AfterLeadText(b, e, r);
    assert r.(lead := r.lead) == r;
    assert a + body + z == a + body + (left + after + more);
    assert z == (a + body + z)[|a + body|..];
    assert left + after + more == (a + body + (left + after + more))[|a + body|..];
  }

  /** The body lies behind the next region. */
  lemma PassRegion(b: string, e: string, c: string, first: bool, r: Region, more: string,
                   a: string, f: nat, at: nat, body: string, z: string) returns (a': string)
    requires Marker(b) && Marker(e) && Marker(c) && Apart(b, c) && Apart(e, c) && IsRegion(b, e, r, first)
    requires !Occurs(c, r.body)
    requires a + body + z == Text(b, e, r) + more && OpensBody(a, c, f, at) && |a| > |r.lead|
    ensures a == Text(b, e, r) + a' && a' + body + z == more
    ensures f >= |Text(b, e, r)| && OpensBody(a', c, f - |Text(b, e, r)|, at - |Text(b, e, r)|)
  {
    hide OccursAt, Occurs, Laid, Text, Marker, Apart, WholeLines, Spaces, MarkedLine;
    var s := a + body + z;
    LaidAtStart(b, e, r, more);
    LineStays(a, body + z, c, f, at);
    assert a + (body + z) == s;
    OutsideRegion(b, e, c, s, r, f, at, |a|);
    BehindRegion(b, e, c, s, r, f, at, |a|);
    TextLength(b, e, r);
    var d := |Text(b, e, r)|;
    a' := a[d..];
    PrefixOf(a, body + z, Text(b, e, r), more);
    assert a' + (body + z) == a' + body + z;
    ShiftedLine(a, a', d, c, f, at);
  }

  lemma TextLength(b: string, e: string, r: Region)
    ensures |Text(b, e, r)| == EndAt(b, r, 0) + |e|
  {
  }

  lemma LaidAtStart(b: string, e: string, r: Region, more: string)
    ensures Laid(b, e, Text(b, e, r) + more, 0, r)
  {
    hide Laid, Text;
    assert OccursAt(Text(b, e, r), Text(b, e, r) + more, 0);
    LaidIsText(b, e, Text(b, e, r) + more, 0, r);
  }

  lemma LineStays(a: string, y: string, c: string, f: nat, at: nat)
    requires OpensBody(a, c, f, at)
    ensures MarkedLine(a + y, c, f, at, |a|)
  {
    assert forall x :: 0 <= x < |a| ==> (a + y)[x] == a[x];
  }

  lemma PrefixOf(a: string, y: string, t: string, more: string)
    requires a + y == t + more && |t| <= |a|
    ensures a == t + a[|t|..] && a[|t|..] + y == more
  {
    assert t == (t + more)[..|t|] == (a + y)[..|t|] == a[..|t|];
    assert more == (t + more)[|t|..] == (a + y)[|t|..];
  }

  lemma ShiftedLine(a: string, a': string, d: nat, c: string, f: nat, at: nat)
    requires OpensBody(a, c, f, at) && f > d && a' == a[d..]
    ensures OpensBody(a', c, f - d, at - d)
  {
    assert forall x :: 0 <= x < |a'| ==> a'[x] == a[x + d];
  }

  /** The line of a marker behind a region is not the line of the region's end marker. */
  lemma BehindRegion(b: string, e: string, c: string, s: string, r: Region, f: nat, at: nat, n: nat)
    requires Marker(b) && Marker(e) && Marker(c) && Apart(e, c)
    requires Laid(b, e, s, 0, r) && Spaces(r.indent) && WholeLines(r.body) && MarkedLine(s, c, f, at, n)
    requires n > EndAt(b, r, 0) + |e|
    ensures f > EndAt(b, r, 0) + |e|
  {
    var start, mark := BodyAt(b, r, 0) + |r.body|, EndAt(b, r, 0);
    assert s[BodyAt(b, r, 0) - 1] == '\n' && s[start - 1] == '\n';
    assert s[mark + |e| - 1] == e[|e| - 1];
    if f < mark + |e| {
      assert forall x :: start <= x < mark ==> s[x] == ' ';
      assert forall x :: mark <= x < mark + |e| ==> s[x] != '\n';
      assert f == start;
      assert s[at] == '-' && s[mark] == '-';
      assert at == mark;
      PrefixesOfOne(e, c, s, mark);
    }
  }

  // ---------- A whole pass of another label ----------

  /** The first `k` regions rewritten, the others as they were. */
  function Mixed(c: string, d: string, regions: seq<Region>, lines: seq<string>, k: nat, tail: string): string
    requires k <= |regions|
  {
    Render(c, d, RewriteAll(regions[..k], lines)) + (Render(c, d, regions[k..]) + tail)
  }

  function Opening(c: string, r: Region): string {
    r.lead + r.indent + c + r.rest + "\n"
  }

  /** One step of the pass, as an exchange of one body. */
  lemma MixedStep(c: string, d: string, regions: seq<Region>, lines: seq<string>, k: nat, tail: string)
    requires k < |regions|
    ensures var r, front := regions[k], Render(c, d, RewriteAll(regions[..k], lines));
            var more := Render(c, d, regions[k + 1..]) + tail;
            var a, z := front + Opening(c, r), r.indent + d + more;
      && Mixed(c, d, regions, lines, k, tail) == a + r.body + z
      && Mixed(c, d, regions, lines, k + 1, tail) == a + Indented(r.indent, lines) + z
  {
    hide Render, Indented, Text;
    var r, front := regions[k], Render(c, d, RewriteAll(regions[..k], lines));
    var more := Render(c, d, regions[k + 1..]) + tail;
    RenderCons(c, d, regions[k..]);
    assert regions[k..][1..] == regions[k + 1..];
    assert RewriteAll(regions[..k + 1], lines) == RewriteAll(regions[..k], lines) + [Rewrite(r, lines)];
    RenderSnoc(c, d, RewriteAll(regions[..k], lines), Rewrite(r, lines));
    TextParts(c, d, r, front, more);
    TextParts(c, d, Rewrite(r, lines), front, more);
  }

  lemma TextParts(c: string, d: string, r: Region, front: string, more: string)
    ensures front + (Text(c, d, r) + more) == front + Opening(c, r) + r.body + (r.indent + d + more)
    ensures front + Text(c, d, r) + more == front + Opening(c, r) + r.body + (r.indent + d + more)
  {
  }

  lemma OpeningOpens(c: string, r: Region, front: string)
    requires Marker(c) && OneLine(r.rest) && Spaces(r.indent) && WholeLines(r.lead) && (r.lead == "" ==> front == "")
    ensures var f := |front| + |r.lead|; OpensBody(front + Opening(c, r), c, f, f + |r.indent|)
  {
    var a, f := front + Opening(c, r), |front| + |r.lead|;
    var at := f + |r.indent|;
    assert r.lead != "" ==> a[f - 1] == r.lead[|r.lead| - 1];
    assert forall x :: f <= x < at ==> a[x] == r.indent[x - f];
    assert forall x :: at <= x < at + |c| ==> a[x] == c[x - at];
    assert forall x :: at + |c| <= x < |a| - 1 ==> a[x] == r.rest[x - at - |c|];
  }

  /** A pass over one label keeps the regions of another and their bodies, when neither mentions the other. */
  lemma PassKeeps(b: string, e: string, contents: string, regions: seq<Region>, tail: string,
                  c: string, d: string, passed: seq<Region>, end: string, lines: seq<string>)
    returns (others: seq<Region>, rest: string)
    requires Marker(b) && Marker(e) && Marker(c) && Marker(d) && Apart(b, c) && Apart(e, c)
    requires Whole(b, e, contents, regions, tail) && Whole(c, d, contents, passed, end)
    requires NoneMentions(regions, c) && NoneMentions(passed, b)
    requires (forall i :: 0 <= i < |lines| ==> OneLine(lines[i])) && !Mentions(lines, b)
    ensures Whole(b, e, Render(c, d, RewriteAll(passed, lines)) + end, others, rest) && SameBodies(regions, others)
  {
    hide Render, Marker, Apart, Occurs, IsRegion, Mixed;
    others, rest := regions, tail;
    MixedEnds(c, d, passed, lines, end);
    for k := 0 to |passed|
      invariant Whole(b, e, Mixed(c, d, passed, lines, k, end), others, rest) && SameBodies(regions, others)
    {
      others, rest := PassStep(b, e, others, rest, c, d, passed, end, lines, k);
    }
  }

  lemma MixedEnds(c: string, d: string, regions: seq<Region>, lines: seq<string>, tail: string)
    ensures Mixed(c, d, regions, lines, 0, tail) == Render(c, d, regions) + tail
    ensures Mixed(c, d, regions, lines, |regions|, tail) == Render(c, d, RewriteAll(regions, lines)) + tail
  {
    hide Text;
    var n := |regions|;
    assert regions[..0] == [] && regions[0..] == regions && regions[..n] == regions && regions[n..] == [];
    assert RewriteAll([], lines) == [];
    RenderNone(c, d);
    assert "" + tail == tail;
  }

  lemma PassStep(b: string, e: string, regions: seq<Region>, tail: string,
                 c: string, d: string, passed: seq<Region>, end: string, lines: seq<string>, k: nat)
    returns (others: seq<Region>, rest: string)
    requires Marker(b) && Marker(e) && Marker(c) && Marker(d) && Apart(b, c) && Apart(e, c) && k < |passed|
    requires forall i :: 0 <= i < |passed| ==> IsRegion(c, d, passed[i], i == 0)
    requires Whole(b, e, Mixed(c, d, passed, lines, k, end), regions, tail)
    requires NoneMentions(regions, c) && NoneMentions(passed, b)
    requires (forall i :: 0 <= i < |lines| ==> OneLine(lines[i])) && !Mentions(lines, b)
    ensures Whole(b, e, Mixed(c, d, passed, lines, k + 1, end), others, rest) && SameBodies(regions, others)
  {
    hide Render, Marker, Apart, Occurs, Mixed, Opening, Indented, OpensBody, WholeLines, OneLine, Spaces;
    var r, front := passed[k], Render(c, d, RewriteAll(passed[..k], lines));
    assert IsRegion(c, d, r, k == 0);
    MixedStep(c, d, passed, lines, k, end);
    if k == 0 {
      assert RewriteAll(passed[..0], lines) == [];
      RenderNone(c, d);
    }
    OpeningOpens(c, r, front);
    IndentedMarks(b, r.indent, lines);
    var f := |front| + |r.lead|;
    others, rest := SpliceKeeps(b, e, c, true, regions, tail, front + Opening(c, r), f, f + |r.indent|,
                                r.body, Indented(r.indent, lines),
                                r.indent + d + (Render(c, d, passed[k + 1..]) + end));
  }

  // ---------- All labels ----------

  /** A label, the expected text of its regions, and how many there are. */
  datatype Spec = Spec(name: string, expected: string, count: nat)

  function BeginOf(x: Spec): string {
    Begin(x.name)
  }

  function EndOf(x: Spec): string {
    End(x.name)
  }

  function LinesOf(x: Spec): seq<string> {
    Lines(x.expected)
  }

  /**
   Labels on one line, none a prefix of another; expected lines without their own end marker or another begin marker.
   */
  ghost predicate Compatible(specs: seq<Spec>) {
    && (forall i :: 0 <= i < |specs| ==> OneLine(specs[i].name) && !Mentions(LinesOf(specs[i]), EndOf(specs[i])))
    && (forall i, j :: 0 <= i < |specs| && 0 <= j < |specs| && i != j ==>
          Apart(BeginOf(specs[i]), BeginOf(specs[j])) && !Mentions(LinesOf(specs[i]), BeginOf(specs[j])))
  }

  /** The label's regions are all there, and hold no begin marker of another label. */
  ghost predicate PlacedAs(specs: seq<Spec>, i: nat, s: string, regions: seq<Region>, tail: string)
    requires i < |specs|
  {
    && Whole(BeginOf(specs[i]), EndOf(specs[i]), s, regions, tail) && |regions| == specs[i].count
    && forall j :: 0 <= j < |specs| && j != i ==> NoneMentions(regions, BeginOf(specs[j]))
  }

  ghost predicate Placed(specs: seq<Spec>, i: nat, s: string)
    requires i < |specs|
  {
    exists regions, tail :: PlacedAs(specs, i, s, regions, tail)
  }

  /** And their bodies are the expected ones. */
  ghost predicate Written(specs: seq<Spec>, i: nat, s: string)
    requires i < |specs|
  {
    exists regions, tail :: PlacedAs(specs, i, s, regions, tail) && RewriteAll(regions, LinesOf(specs[i])) == regions
  }

  ghost predicate AllPlaced(specs: seq<Spec>, s: string) {
    forall i :: 0 <= i < |specs| ==> Placed(specs, i, s)
  }

  /** One pass: replace_all_sql_regions for one label. */
  ghost predicate Pass(x: Spec, contents: string, out: string) {
    Replaced(BeginOf(x), EndOf(x), LinesOf(x), contents, x.count, out)
  }

  /** The passes in order. */
  ghost predicate Rendered(specs: seq<Spec>, contents: string, out: string) {
    if specs == [] then
      out == contents
    else
      var front, last := specs[..|specs| - 1], specs[|specs| - 1];
      exists between :: Rendered(front, contents, between) && Pass(last, between, out)
  }

  lemma BeginsAndEnds(x: Spec, y: Spec)
    requires OneLine(x.name) && OneLine(y.name)
    ensures Marker(BeginOf(x)) && Marker(EndOf(x)) && Apart(EndOf(x), BeginOf(y))
    ensures forall k :: 0 <= k < |LinesOf(x)| ==> OneLine(LinesOf(x)[k])
  {
    Markers(x.name);
    assert EndOf(x)[3] == 'E' && BeginOf(y)[3] == 'B';
    LinesAreLines(x.expected);
  }

  /** A pass writes its own regions and leaves those of the other labels as they are. */
  lemma PassWrites(specs: seq<Spec>, i: nat, s: string, out: string)
    requires Compatible(specs) && i < |specs| && Placed(specs, i, s) && Pass(specs[i], s, out)
    ensures Written(specs, i, out)
  {
    hide BeginOf, EndOf, LinesOf, Whole, Marker, OneLine, Render;
    var x := specs[i];
    BeginsAndEnds(x, x);
    var regions, tail :| PlacedAs(specs, i, s, regions, tail);
    PassIsRewrite(x, s, regions, tail, out);
    RewrittenIsWhole(BeginOf(x), EndOf(x), LinesOf(x), s, regions, tail);
    var written := RewriteAll(regions, LinesOf(x));
    forall j | 0 <= j < |specs| && j != i ensures NoneMentions(written, BeginOf(specs[j])) {
      BeginsAndEnds(specs[j], x);
      WrittenMentions(BeginOf(specs[j]), BeginOf(x), EndOf(x), s, regions, tail, LinesOf(x));
    }
    assert PlacedAs(specs, i, out, written, tail);
  }

  lemma PassIsRewrite(x: Spec, s: string, regions: seq<Region>, tail: string, out: string)
    requires OneLine(x.name) && Whole(BeginOf(x), EndOf(x), s, regions, tail) && |regions| == x.count && Pass(x, s, out)
    ensures out == Render(BeginOf(x), EndOf(x), RewriteAll(regions, LinesOf(x))) + tail
  {
    hide BeginOf, EndOf, LinesOf, Whole, Marker, Render;
    BeginsAndEnds(x, x);
    ReplacedOnce(BeginOf(x), EndOf(x), LinesOf(x), s, x.count, out,
                 Render(BeginOf(x), EndOf(x), RewriteAll(regions, LinesOf(x))) + tail);
  }

  lemma WrittenMentions(m: string, b: string, e: string, s: string, regions: seq<Region>, tail: string,
                        lines: seq<string>)
    requires Marker(m) && Whole(b, e, s, regions, tail)
    requires (forall k :: 0 <= k < |lines| ==> OneLine(lines[k])) && !Mentions(lines, m)
    ensures NoneMentions(RewriteAll(regions, lines), m)
  {
    hide Indented, Occurs, Marker, OneLine;
    forall k | 0 <= k < |regions| ensures !Occurs(m, RewriteAll(regions, lines)[k].body) {
      assert IsRegion(b, e, regions[k], k == 0);
      IndentedMarks(m, regions[k].indent, lines);
    }
  }

  lemma PassLeaves(specs: seq<Spec>, i: nat, j: nat, s: string, out: string)
    requires Compatible(specs) && i < |specs| && j < |specs| && i != j
    requires Placed(specs, i, s) && Placed(specs, j, s) && Pass(specs[j], s, out)
    ensures Placed(specs, i, out)
    ensures Written(specs, i, s) ==> Written(specs, i, out)
  {
    hide Placed, Written, PlacedAs;
    var regions, tail := Chosen(specs, i, s);
    PassLeavesThese(specs, i, j, s, out, regions, tail);
  }

  /** The label's regions, written ones if there are. */
  lemma Chosen(specs: seq<Spec>, i: nat, s: string) returns (regions: seq<Region>, tail: string)
    requires i < |specs| && Placed(specs, i, s)
    ensures PlacedAs(specs, i, s, regions, tail)
    ensures Written(specs, i, s) ==> RewriteAll(regions, LinesOf(specs[i])) == regions
  {
    hide PlacedAs, LinesOf;
    if Written(specs, i, s) {
      regions, tail :| PlacedAs(specs, i, s, regions, tail) && RewriteAll(regions, LinesOf(specs[i])) == regions;
    } else {
      regions, tail :| PlacedAs(specs, i, s, regions, tail);
    }
  }

  lemma PassLeavesThese(specs: seq<Spec>, i: nat, j: nat, s: string, out: string, regions: seq<Region>, tail: string)
    requires Compatible(specs) && i < |specs| && j < |specs| && i != j
    requires PlacedAs(specs, i, s, regions, tail) && Placed(specs, j, s) && Pass(specs[j], s, out)
    ensures Placed(specs, i, out)
    ensures RewriteAll(regions, LinesOf(specs[i])) == regions ==> Written(specs, i, out)
  {
    hide BeginOf, EndOf, LinesOf, Whole, Marker, OneLine, Render, Apart, Occurs;
    var x, y := specs[i], specs[j];
    BeginsAndEnds(x, y);
    BeginsAndEnds(y, x);
    var passed, end :| PlacedAs(specs, j, s, passed, end);
    PassIsRewrite(y, s, passed, end, out);
    var others, rest :=
      PassKeeps(BeginOf(x), EndOf(x), s, regions, tail, BeginOf(y), EndOf(y), passed, end, LinesOf(y));
    assert PlacedAs(specs, i, out, others, rest);
    SameRewrite(regions, others, LinesOf(x));
  }

  lemma SameRewrite(regions: seq<Region>, others: seq<Region>, lines: seq<string>)
    requires SameBodies(regions, others)
    ensures RewriteAll(regions, lines) == regions ==> RewriteAll(others, lines) == others
  {
    hide Indented;
    if RewriteAll(regions, lines) == regions {
      forall k | 0 <= k < |others| ensures Rewrite(others[k], lines) == others[k] {
        assert RewriteAll(regions, lines)[k] == regions[k];
      }
    }
  }

  /** After the first n passes, everything is still placed and those n labels are written. */
  lemma {:induction false} RenderedIsWritten(specs: seq<Spec>, n: nat, contents: string, out: string)
    requires Compatible(specs) && AllPlaced(specs, contents) && n <= |specs| && Rendered(specs[..n], contents, out)
    ensures AllPlaced(specs, out) && forall i :: 0 <= i < n ==> Written(specs, i, out)
  {
    hide Compatible, Placed, Written, Pass;
    if n > 0 {
      assert specs[..n][..n - 1] == specs[..n - 1];
      var between :| Rendered(specs[..n - 1], contents, between) && Pass(specs[n - 1], between, out);
      RenderedIsWritten(specs, n - 1, contents, between);
      PassWrites(specs, n - 1, between, out);
      forall i | 0 <= i < |specs| && i != n - 1
        ensures Placed(specs, i, out) && (Written(specs, i, between) ==> Written(specs, i, out))
      {
        PassLeaves(specs, i, n - 1, between, out);
      }
      WrittenIsPlaced(specs, n - 1, out);
    }
  }

  lemma WrittenIsPlaced(specs: seq<Spec>, i: nat, s: string)
    requires i < |specs| && Written(specs, i, s)
    ensures Placed(specs, i, s)
  {
    hide PlacedAs;
  }

  lemma WrittenIsFixed(specs: seq<Spec>, i: nat, s: string)
    requires i < |specs| && Written(specs, i, s)
    ensures Pass(specs[i], s, s)
  {
    hide BeginOf, EndOf, LinesOf, Render;
    var regions, tail :| PlacedAs(specs, i, s, regions, tail) && RewriteAll(regions, LinesOf(specs[i])) == regions;
  }

  lemma {:induction false} FixedIsRendered(specs: seq<Spec>, n: nat, s: string)
    requires n <= |specs| && forall i :: 0 <= i < n ==> Pass(specs[i], s, s)
    ensures Rendered(specs[..n], s, s)
  {
    hide Pass;
    if n > 0 {
      FixedIsRendered(specs, n - 1, s);
      assert specs[..n][..n - 1] == specs[..n - 1];
    }
  }

  lemma {:induction false} RenderedOnce(specs: seq<Spec>, contents: string, out: string, other: string)
    requires (forall i :: 0 <= i < |specs| ==> OneLine(specs[i].name)) && Rendered(specs, contents, out)
    requires Rendered(specs, contents, other)
    ensures out == other
  {
    hide OneLine, Pass;
    if specs != [] {
      var front, x := specs[..|specs| - 1], specs[|specs| - 1];
      var p :| Rendered(front, contents, p) && Pass(x, p, out);
      var q :| Rendered(front, contents, q) && Pass(x, q, other);
      RenderedOnce(front, contents, p, q);
      PassOnce(x, p, out, other);
    }
  }

  lemma PassOnce(x: Spec, contents: string, out: string, other: string)
    requires OneLine(x.name) && Pass(x, contents, out) && Pass(x, contents, other)
    ensures out == other
  {
    hide Replaced, Marker, OneLine;
    BeginsAndEnds(x, x);
    ReplacedOnce(BeginOf(x), EndOf(x), LinesOf(x), contents, x.count, out, other);
  }

  /** Sync, then check: a rendered schema renders to itself and to nothing else. */
  lemma RenderIsIdempotent(specs: seq<Spec>, contents: string, out: string, again: string)
    requires Compatible(specs) && AllPlaced(specs, contents) && Rendered(specs, contents, out)
    ensures Rendered(specs, out, again) <==> again == out
  {
    hide Placed, Written, Pass, Rendered;
    assert specs[..|specs|] == specs;
    RenderedIsWritten(specs, |specs|, contents, out);
    forall i | 0 <= i < |specs| ensures Pass(specs[i], out, out) {
      WrittenIsFixed(specs, i, out);
    }
    FixedIsRendered(specs, |specs|, out);
    if Rendered(specs, out, again) {
      RenderedOnce(specs, out, out, again);
    }
  }

  /** A placed label can be passed. */
  lemma PlacedCanPass(specs: seq<Spec>, i: nat, s: string) returns (out: string)
    requires i < |specs| && Placed(specs, i, s)
    ensures Pass(specs[i], s, out)
  {
    hide BeginOf, EndOf, LinesOf, Render;
    var x := specs[i];
    var regions, tail :| PlacedAs(specs, i, s, regions, tail);
    out := Render(BeginOf(x), EndOf(x), RewriteAll(regions, LinesOf(x))) + tail;
  }

  /** render_baseline_ref_sql_regions, for any list of labels: fails exactly when some pass fails. */
  method RenderAll(contents: string, specs: seq<Spec>) returns (r: Option<string>)
    requires forall i :: 0 <= i < |specs| ==> OneLine(specs[i].name)
    ensures r.Some? ==> Rendered(specs, contents, r.value)
    ensures r.None? ==> forall out :: !Rendered(specs, contents, out)
    ensures Compatible(specs) && AllPlaced(specs, contents) ==> r.Some?
  {
    hide OneLine, Compatible, Placed, Pass;
    var rendered := contents;
    for i := 0 to |specs|
      invariant Rendered(specs[..i], contents, rendered)
    {
      var x := specs[i];
      var next := SqlRegions.ReplaceAll(rendered, x.name, x.expected, x.count);
      assert specs[..i + 1][..i] == specs[..i];
      OnePass(x, rendered, next);
      if next.None? {
        NotRendered(specs, i, contents, rendered);
        if Compatible(specs) && AllPlaced(specs, contents) {
          RenderedIsWritten(specs, i, contents, rendered);
          var out := PlacedCanPass(specs, i, rendered);
        }
        return None;
      }
      rendered := next.value;
    }
    assert specs[..|specs|] == specs;
    r := Some(rendered);
  }

  lemma OnePass(x: Spec, contents: string, next: Option<string>)
    requires next.Some? ==> Replaced(Begin(x.name), End(x.name), Lines(x.expected), contents, x.count, next.value)
    requires next.None? ==>
      forall out :: !Replaced(Begin(x.name), End(x.name), Lines(x.expected), contents, x.count, out)
    ensures next.Some? ==> Pass(x, contents, next.value)
    ensures next.None? ==> forall out :: !Pass(x, contents, out)
  {
    hide Replaced;
  }

  /** Where one pass fails, the whole rendering does. */
  lemma NotRendered(specs: seq<Spec>, i: nat, contents: string, rendered: string)
    requires i < |specs| && forall k :: 0 <= k < |specs| ==> OneLine(specs[k].name)
    requires Rendered(specs[..i], contents, rendered) && forall out :: !Pass(specs[i], rendered, out)
    ensures forall out :: !Rendered(specs, contents, out)
  {
    hide Pass, OneLine, Rendered;
    forall out ensures !Rendered(specs, contents, out) {
      if Rendered(specs, contents, out) {
        assert specs[..|specs|] == specs;
        var between := UpTo(specs, |specs|, i + 1, contents, out);
        var p := LastPass(specs, i, contents, between);
        RenderedOnce(specs[..i], contents, rendered, p);
      }
    }
  }

  lemma LastPass(specs: seq<Spec>, i: nat, contents: string, out: string) returns (between: string)
    requires i < |specs| && Rendered(specs[..i + 1], contents, out)
    ensures Rendered(specs[..i], contents, between) && Pass(specs[i], between, out)
  {
    hide Pass;
    assert specs[..i + 1][..i] == specs[..i];
    between :| Rendered(specs[..i], contents, between) && Pass(specs[i], between, out);
  }

  lemma {:induction false} UpTo(specs: seq<Spec>, n: nat, i: nat, contents: string, out: string)
    returns (between: string)
    requires i <= n <= |specs| && Rendered(specs[..n], contents, out)
    ensures Rendered(specs[..i], contents, between)
  {
    hide Pass;
    if i == n {
      between := out;
    } else {
      assert specs[..n][..n - 1] == specs[..n - 1];
      var p :| Rendered(specs[..n - 1], contents, p) && Pass(specs[n - 1], p, out);
      between := UpTo(specs, n - 1, i, contents, p);
    }
  }

  // ---------- The labels of the schema, and nested regions ----------

  function BaselineLabel(kind: string, column: string): string {
    "BaselineRef " + kind + " " + column
  }

  lemma LabelChars(kind: string, column: string)
    requires |kind| == 8 && column != ""
    ensures var name := BaselineLabel(kind, column);
      |name| > 21 && name[12] == kind[0] && name[13] == kind[1] && name[21] == column[0]
  {
  }

  /** No label of the storage schema starts another. */
  lemma BaselineLabelsApart()
    ensures var present := BaselineLabel("non-null", "baseline_ref");
            var required := BaselineLabel("required", "baseline_ref");
            var nullable := BaselineLabel("nullable", "baseline_ref");
            var applied := BaselineLabel("non-null", "applied_baseline_ref");
      && Apart(Begin(present), Begin(required)) && Apart(Begin(present), Begin(nullable))
      && Apart(Begin(present), Begin(applied))
      && Apart(Begin(required), Begin(nullable)) && Apart(Begin(required), Begin(applied))
      && Apart(Begin(nullable), Begin(applied))
  {
    hide Begin, Apart, BaselineLabel;
    var present, required := BaselineLabel("non-null", "baseline_ref"), BaselineLabel("required", "baseline_ref");
    var nullable := BaselineLabel("nullable", "baseline_ref");
    var applied := BaselineLabel("non-null", "applied_baseline_ref");
    LabelChars("non-null", "baseline_ref");
    LabelChars("required", "baseline_ref");
    LabelChars("nullable", "baseline_ref");
    LabelChars("non-null", "applied_baseline_ref");
    DifferentNames(present, required, 12);
    DifferentNames(present, nullable, 13);
    DifferentNames(present, applied, 21);
    DifferentNames(required, nullable, 12);
    DifferentNames(required, applied, 12);
    DifferentNames(nullable, applied, 13);
  }

  lemma DifferentNames(x: string, y: string, k: nat)
    requires k < |x| && k < |y| && x[k] != y[k]
    ensures Apart(Begin(x), Begin(y))
  {
    var p := "-- BEGIN GENERATED: ";
    assert Begin(x)[|p| + k] == x[k] && Begin(y)[|p| + k] == y[k];
  }

  // A region of the first label inside a region of the second.

  function Nested(b: string, e: string, c: string, d: string): string {
    c + "\n" + b + "\n" + e + "\n" + d
  }

  lemma OneRegion(b: string, e: string, lines: seq<string>, contents: string, r: Region, tail: string)
    requires Marker(b) && IsRegion(b, e, r, true) && !Occurs(b, tail) && contents == Text(b, e, r) + tail
    ensures Replaced(b, e, lines, contents, 1, Text(b, e, Rewrite(r, lines)) + tail)
  {
    hide Text, IsRegion, Occurs, Indented;
    OneRendered(b, e, r);
    OneRendered(b, e, Rewrite(r, lines));
    assert RewriteAll([r], lines) == [Rewrite(r, lines)];
    assert Whole(b, e, contents, [r], tail);
  }

  lemma InnerPass(b: string, e: string, c: string, d: string)
    requires Marker(b) && Marker(e) && Marker(c) && Marker(d) && !Occurs(b, c + "\n" + d)
    ensures Replaced(b, e, [], Nested(b, e, c, d), 1, Nested(b, e, c, d))
  {
    var r, tail := Region(c + "\n", "", "", ""), "\n" + d;
    LineSplit(b, c + "\n", d);
    LineSplit(b, "\n", d);
    NoFeed(b, "");
    assert "" + "\n" == "\n" && !Occurs(b, "") && !Occurs(e, "");
    assert Nested(b, e, c, d) == Text(b, e, r) + tail;
    assert Rewrite(r, []) == r;
    OneRegion(b, e, [], Nested(b, e, c, d), r, tail);
  }

  lemma OuterPass(b: string, e: string, c: string, d: string)
    requires Marker(b) && Marker(e) && Marker(c) && Marker(d) && !Occurs(d, b + "\n" + e + "\n")
    ensures Replaced(c, d, [], Nested(b, e, c, d), 1, c + "\n" + d)
  {
    var r := Region("", "", "", b + "\n" + e + "\n");
    assert !Occurs(c, "");
    assert Nested(b, e, c, d) == Text(c, d, r) + "";
    OneRegion(c, d, [], Nested(b, e, c, d), r, "");
    assert Text(c, d, Rewrite(r, [])) + "" == c + "\n" + d;
  }

  lemma NothingLeft(b: string, e: string, lines: seq<string>, contents: string, out: string)
    requires !Occurs(b, contents)
    ensures !Replaced(b, e, lines, contents, 1, out)
  {
    hide Text, Laid, Occurs, IsRegion;
    forall regions, tail | |regions| == 1 ensures !Whole(b, e, contents, regions, tail) {
      OneRendered(b, e, regions[0]);
      assert regions == [regions[0]];
      if Whole(b, e, contents, regions, tail) {
        BeginOccurs(b, e, regions[0], tail);
      }
    }
  }

  lemma BeginOccurs(b: string, e: string, r: Region, tail: string)
    ensures Occurs(b, Text(b, e, r) + tail)
  {
    hide Text, OccursAt;
    LaidAtStart(b, e, r, tail);
  }

  /** The markers of two labels of one character do not occur where the nesting needs them not to. */
  lemma ShortLabels(x: string, y: string)
    requires |x| == |y| == 1 && x != y && OneLine(x) && OneLine(y)
    ensures !Occurs(Begin(x), Begin(y) + "\n" + End(y)) && !Occurs(End(y), Begin(x) + "\n" + End(x) + "\n")
  {
    Markers(x);
    Markers(y);
    LineSplit(Begin(x), Begin(y) + "\n", End(y));
    NoFeed(Begin(x), Begin(y));
    LineSplit(End(y), Begin(x) + "\n", End(x) + "\n");
    NoFeed(End(y), Begin(x));
    NoFeed(End(y), End(x));
    assert Begin(x) + "\n" + End(x) + "\n" == Begin(x) + "\n" + (End(x) + "\n");
    ShortMarkers(x, y);
  }

  lemma ShortMarkers(x: string, y: string)
    requires |x| == |y| == 1 && x != y
    ensures !Occurs(Begin(x), Begin(y)) && !Occurs(Begin(x), End(y)) && !Occurs(End(y), Begin(x))
    ensures !Occurs(End(y), End(x))
  {
    var b, c, d, e := Begin(x), Begin(y), End(y), End(x);
    assert |b| == |c| == 21 && |d| == |e| == 19;
    assert b[20] == x[0] && c[20] == y[0] && d[18] == y[0] && e[18] == x[0];
    assert d[0] == '-' && d[1] == '-' && d[3] == 'E' && b[2] == ' ' && b[3] == 'B';
    forall i ensures !OccursAt(d, b, i) {
      if i == 0 {
        assert b[3] != d[3];
      } else if i == 1 || i == 2 {
        assert b[2] != d[2 - i];
      }
    }
    forall i ensures !OccursAt(b, c, i) && !OccursAt(d, e, i) {
      if i == 0 {
        assert c[20] != b[20] && e[18] != d[18];
      }
    }
  }

  lemma TwoPasses(x: Spec, y: Spec, contents: string, between: string, out: string)
    requires Pass(x, contents, between) && Pass(y, between, out)
    ensures Rendered([x, y], contents, out)
  {
    hide Pass;
    var specs := [x, y];
    assert specs[..1] == [x] && [x][..0] == [];
    assert Rendered([], contents, contents) && Rendered([x], contents, between);
  }

  lemma FirstPassFails(x: Spec, y: Spec, contents: string, out: string)
    requires forall next :: !Pass(x, contents, next)
    ensures !Rendered([x, y], contents, out)
  {
    hide Pass;
    var specs := [x, y];
    if Rendered(specs, contents, out) {
      assert specs[..2] == specs && specs[..0] == [];
      var between := UpTo(specs, 2, 1, contents, out);
      var p := LastPass(specs, 0, contents, between);
    }
  }

  /** Two labels whose first rendering succeeds and whose second fails, one being nested in the other. */
  lemma NestedIsNotIdempotent(again: string)
    ensures var x, y := Spec("a", "", 1), Spec("b", "", 1);
            var out := BeginOf(y) + "\n" + EndOf(y);
      && Rendered([x, y], Nested(BeginOf(x), EndOf(x), BeginOf(y), EndOf(y)), out)
      && !Rendered([x, y], out, again)
  {
    hide Begin, End, Nested, Replaced, Marker, Lines, Occurs, Rendered;
    var x, y := Spec("a", "", 1), Spec("b", "", 1);
    var b, e, c, d := BeginOf(x), EndOf(x), BeginOf(y), EndOf(y);
    assert OneLine("a") && OneLine("b") && "a"[0] != "b"[0];
    Markers("a");
    Markers("b");
    ShortLabels("a", "b");
    NoLines();
    InnerPass(b, e, c, d);
    OuterPass(b, e, c, d);
    var contents, out := Nested(b, e, c, d), c + "\n" + d;
    TwoPasses(x, y, contents, contents, out);
    forall next ensures !Pass(x, out, next) {
      NothingLeft(b, e, [], out, next);
    }
    FirstPassFails(x, y, out, again);
  }

  lemma NoLines()
    ensures Lines("") == []
  {
  }

  /** A marker holds no line feed. */
  lemma NoFeed(m: string, line: string)
    requires Marker(m)
    ensures Occurs(m, line + "\n") <==> Occurs(m, line)
  {
    var s := line + "\n";
    assert OccursAt(line, s, 0) && s[|line|] == '\n';
    forall i | OccursAt(m, s, i) ensures Occurs(m, line) {
      OccursWithin(m, line, s, 0, i);
    }
    forall i | OccursAt(m, line, i) ensures Occurs(m, s) {
      OccursWithin(m, line, s, 0, i);
    }
  }
}
