/**
 Generated regions of the storage schema: every region of one label has its body replaced, in place,
 by the expected lines at the region's own indentation.
 */
module SqlRegions {
  import opened Wrappers
  import opened TextSearch

  function Begin(name: string): string {
    "-- BEGIN GENERATED: " + name
  }

  function End(name: string): string {
    "-- END GENERATED: " + name
  }

  ghost predicate OneLine(s: string) {
    forall x :: 0 <= x < |s| ==> s[x] != '\n'
  }

  /** Markers start with a dash and stay on one line. */
  ghost predicate Marker(m: string) {
    m != "" && m[0] == '-' && OneLine(m)
  }

  lemma Markers(name: string)
    requires OneLine(name)
    ensures Marker(Begin(name)) && Marker(End(name))
  {
  }

  predicate Spaces(s: string) {
    forall i :: 0 <= i < |s| ==> s[i] == ' '
  }

  /** The lines of a text, as Rust's `lines` gives them: a final line feed starts no further line. */
  function Lines(s: string): seq<string>
    decreases |s|
  {
    if s == "" then [] else
      match FindFrom("\n", s, 0)
      case None => [s]
      case Some(i) => [StripReturn(s[..i])] + Lines(s[i + 1..])
  }

  function StripReturn(line: string): string {
    if line != "" && line[|line| - 1] == '\r' then line[..|line| - 1] else line
  }

  lemma {:induction false} LinesAreLines(s: string)
    ensures forall i :: 0 <= i < |Lines(s)| ==> OneLine(Lines(s)[i])
    decreases |s|
  {
    if s != "" {
      NoLineFeedBefore(s);
      if FindFrom("\n", s, 0).Some? {
        LinesAreLines(s[FindFrom("\n", s, 0).value + 1..]);
      }
    }
  }

  /**
   The lines of a text, one after the other: each ends at a line feed, with or without a return before it, and the
   last one may end with the text instead.
   */
  ghost predicate SplitsInto(s: string, lines: seq<string>)
    decreases |lines|
  {
    if lines == [] then
      s == ""
    else
      && OneLine(lines[0])
      && (|| (lines[0] != "" && s == lines[0] && |lines| == 1)
          || exists rest :: LineThen(s, lines[0], rest) && SplitsInto(rest, lines[1..]))
  }

  predicate EndsInReturn(line: string) {
    line != "" && line[|line| - 1] == '\r'
  }

  /** The text continues after this line with the rest. */
  predicate LineThen(s: string, line: string, rest: string) {
    s == line + "\r\n" + rest || (s == line + "\n" + rest && !EndsInReturn(line))
  }

  /** Nothing of a text is lost or made up by its lines, and they are determined by it. */
  lemma {:induction false} LinesExactly(s: string, lines: seq<string>)
    ensures lines == Lines(s) <==> SplitsInto(s, lines)
    decreases |s|
  {
    hide LineThen, StripReturn;
    if s != "" && lines != [] {
      NoLineFeedBefore(s);
      FindIsFirst("\n", s, 0);
      match FindFrom("\n", s, 0)
      case None =>
        forall rest | LineThen(s, lines[0], rest) ensures false {
          LineFeedStands(s, lines[0], rest);
        }
      case Some(i) =>
        assert s[i] == '\n';
        LinesAreLines(s);
        LinesExactly(s[i + 1..], lines[1..]);
        forall rest | OneLine(lines[0])
          ensures LineThen(s, lines[0], rest) <==> lines[0] == StripReturn(s[..i]) && rest == s[i + 1..]
        {
          FirstLine(s, i, lines[0], rest);
        }
        assert lines == [lines[0]] + lines[1..];
        assert lines == Lines(s) ==> LineThen(s, lines[0], s[i + 1..]);
    } else if s == "" && lines != [] {
      forall rest | LineThen(s, lines[0], rest) ensures false {
        LineFeedStands(s, lines[0], rest);
      }
    }
  }

  lemma LineFeedStands(s: string, line: string, rest: string)
    requires LineThen(s, line, rest)
    ensures exists x :: 0 <= x < |s| && s[x] == '\n'
  {
    if s == line + "\r\n" + rest {
      assert s[|line| + 1] == '\n';
    } else {
      assert s[|line|] == '\n';
    }
  }

  lemma FirstLine(s: string, i: nat, line: string, rest: string)
    requires i < |s| && s[i] == '\n' && OneLine(s[..i]) && OneLine(line)
    ensures LineThen(s, line, rest) <==> line == StripReturn(s[..i]) && rest == s[i + 1..]
  {
    var before := s[..i];
    assert forall x :: 0 <= x < i ==> s[x] == before[x];
    if s == line + "\r\n" + rest {
      assert s[|line| + 1] == '\n' && s[|line|] == '\r' && forall x :: 0 <= x < |line| ==> s[x] == line[x];
      assert i == |line| + 1;
      assert before == line + "\r";
    } else if s == line + "\n" + rest {
      assert s[|line|] == '\n' && forall x :: 0 <= x < |line| ==> s[x] == line[x];
      assert i == |line| && before == line;
    }
    assert s == before + "\n" + s[i + 1..];
    if EndsInReturn(before) {
      assert before == before[..i - 1] + "\r";
      assert s == before[..i - 1] + "\r\n" + s[i + 1..];
    }
  }

  lemma NoLineFeedBefore(s: string)
    ensures var found := FindFrom("\n", s, 0);
      forall x :: 0 <= x < (if found.Some? then found.value else |s|) ==> s[x] != '\n'
  {
    FindIsFirst("\n", s, 0);
    forall x | 0 <= x < |s| && s[x] == '\n' ensures OccursAt("\n", s, x) {
    }
  }

  /** The expected lines at an indentation. */
  function Indented(indent: string, lines: seq<string>): string {
    if lines == [] then "" else indent + lines[0] + "\n" + Indented(indent, lines[1..])
  }

  function IndentEach(indent: string, lines: seq<string>): seq<string> {
    seq(|lines|, i requires 0 <= i < |lines| => indent + lines[i])
  }

  /** The body written has exactly the expected lines, each behind the indentation. */
  lemma {:induction false} IndentedLines(indent: string, lines: seq<string>)
    requires Spaces(indent) && forall i :: 0 <= i < |lines| ==> OneLine(lines[i]) && !EndsInReturn(lines[i])
    ensures Lines(Indented(indent, lines)) == IndentEach(indent, lines)
  {
    var s, all := Indented(indent, lines), IndentEach(indent, lines);
    hide Indented, Lines;
    IndentedUnfolds(indent, lines);
    if lines != [] {
      var rest := Indented(indent, lines[1..]);
      IndentedLines(indent, lines[1..]);
      LinesExactly(rest, all[1..]);
      assert all[1..] == IndentEach(indent, lines[1..]);
      assert s == all[0] + "\n" + rest && !EndsInReturn(all[0]);
      assert LineThen(s, all[0], rest);
    }
    LinesExactly(s, all);
  }

  lemma IndentedUnfolds(indent: string, lines: seq<string>)
    ensures Indented(indent, lines) ==
            if lines == [] then "" else indent + lines[0] + "\n" + Indented(indent, lines[1..])
  {
  }

  /** One generated region: the text before it, its indentation, the rest of the begin line, and its body. */
  datatype Region = Region(lead: string, indent: string, rest: string, body: string)

  ghost predicate WholeLines(s: string) {
    s == "" || s[|s| - 1] == '\n'
  }

  ghost predicate IsRegion(b: string, e: string, r: Region, first: bool) {
    && WholeLines(r.lead) && (r.lead == "" ==> first) && !Occurs(b, r.lead)
    && Spaces(r.indent)
    && OneLine(r.rest)
    && WholeLines(r.body) && !Occurs(e, r.body)
  }

  function Text(b: string, e: string, r: Region): string {
    r.lead + r.indent + b + r.rest + "\n" + r.body + r.indent + e
  }

  function BeginAt(r: Region, d: nat): nat {
    d + |r.lead| + |r.indent|
  }

  function BodyAt(b: string, r: Region, d: nat): nat {
    BeginAt(r, d) + |b| + |r.rest| + 1
  }

  function EndAt(b: string, r: Region, d: nat): nat {
    BodyAt(b, r, d) + |r.body| + |r.indent|
  }

  /** The region's text stands at position `d`, part by part. */
  ghost predicate Laid(b: string, e: string, s: string, d: nat, r: Region) {
    && OccursAt(r.lead, s, d) && OccursAt(r.indent, s, d + |r.lead|)
    && OccursAt(b, s, BeginAt(r, d)) && OccursAt(r.rest, s, BeginAt(r, d) + |b|)
    && OccursAt("\n", s, BodyAt(b, r, d) - 1)
    && OccursAt(r.body, s, BodyAt(b, r, d)) && OccursAt(r.indent, s, BodyAt(b, r, d) + |r.body|)
    && OccursAt(e, s, EndAt(b, r, d))
  }

  lemma LaidIsText(b: string, e: string, s: string, d: nat, r: Region)
    ensures Laid(b, e, s, d, r) <==> OccursAt(Text(b, e, r), s, d)
  {
    hide OccursAt;
    SplitOccurs(r.lead + r.indent + b + r.rest + "\n" + r.body + r.indent, e, s, d);
    SplitOccurs(r.lead + r.indent + b + r.rest + "\n" + r.body, r.indent, s, d);
    SplitOccurs(r.lead + r.indent + b + r.rest + "\n", r.body, s, d);
    SplitOccurs(r.lead + r.indent + b + r.rest, "\n", s, d);
    SplitOccurs(r.lead + r.indent + b, r.rest, s, d);
    SplitOccurs(r.lead + r.indent, b, s, d);
    SplitOccurs(r.lead, r.indent, s, d);
  }

  lemma SplitOccurs(p: string, q: string, s: string, d: nat)
    ensures OccursAt(p + q, s, d) <==> OccursAt(p, s, d) && OccursAt(q, s, d + |p|)
  {
  }

  function Render(b: string, e: string, regions: seq<Region>): string {
    if regions == [] then "" else Render(b, e, regions[..|regions| - 1]) + Text(b, e, regions[|regions| - 1])
  }

  /** The regions of a text with one label, and the text after the last of them. */
  ghost predicate Whole(b: string, e: string, contents: string, regions: seq<Region>, tail: string) {
    && contents == Render(b, e, regions) + tail
    && (forall i :: 0 <= i < |regions| ==> IsRegion(b, e, regions[i], i == 0))
    && !Occurs(b, tail)
  }

  function Rewrite(r: Region, lines: seq<string>): Region {
    r.(body := Indented(r.indent, lines))
  }

  function RewriteAll(regions: seq<Region>, lines: seq<string>): seq<Region> {
    seq(|regions|, i requires 0 <= i < |regions| => Rewrite(regions[i], lines))
  }

  /** What one turn of the loop reads from `start` on. */
  datatype Step = NoMore | Malformed | Found(indent: string, bodyStart: nat, endLineStart: nat)

  function NextRegion(b: string, e: string, s: string, start: nat): Step
    requires start <= |s|
  {
    match FindFrom(b, s, start)
    case None => NoMore
    case Some(at) =>
      var indent := s[LineStart(s, at)..at];
      if !Spaces(indent) then Malformed
      else match FindFrom("\n", s, at)
        case None => Malformed
        case Some(lineEnd) => ReadBody(e, s, indent, lineEnd + 1)
  }

  function ReadBody(e: string, s: string, indent: string, bodyStart: nat): Step
    requires bodyStart <= |s|
  {
    match FindFrom(e, s, bodyStart)
    case None => Malformed
    case Some(endAt) =>
      var endLine := LineStart(s, endAt);
      if s[endLine..endAt] != indent then Malformed else Found(indent, bodyStart, endLine)
  }

  /** Occurrences inside a part are occurrences in the part. */
  lemma OccursWithin(m: string, part: string, s: string, d: nat, i: nat)
    requires OccursAt(part, s, d) && d <= i && i + |m| <= d + |part|
    ensures OccursAt(m, s, i) <==> OccursAt(m, part, i - d)
  {
    if OccursAt(m, part, i - d) {
      assert forall x :: i <= x < i + |m| ==> s[x] == part[x - d];
    } else {
      assert forall x :: i - d <= x < i - d + |m| ==> part[x] == s[x + d];
    }
  }

  /** A marker after whole lines and an indentation is first found there, and the line starts behind the lines. */
  lemma MarkedHere(m: string, s: string, d: nat, lines: string, indent: string)
    requires Marker(m) && WholeLines(lines) && Spaces(indent) && !Occurs(m, lines)
    requires OccursAt(lines, s, d) && OccursAt(indent, s, d + |lines|) && OccursAt(m, s, d + |lines| + |indent|)
    ensures FindFrom(m, s, d) == Some(d + |lines| + |indent|)
  {
    var at := d + |lines| + |indent|;
    forall i | d <= i < at ensures !OccursAt(m, s, i) {
      if i >= d + |lines| {
        assert s[i] == ' ';
      } else if i + |m| <= d + |lines| {
        assert !OccursAt(m, lines, i - d);
        OccursWithin(m, lines, s, d, i);
      } else {
        assert s[d + |lines| - 1] == '\n';
      }
    }
    FoundAt(m, s, d, at);
  }

  /** A region is read as what it is, wherever it stands. */
  lemma RegionIsRead(b: string, e: string, s: string, d: nat, r: Region)
    requires Marker(b) && Marker(e) && IsRegion(b, e, r, d == 0) && Laid(b, e, s, d, r)
    ensures FindFrom(b, s, d) == Some(BeginAt(r, d))
    ensures NextRegion(b, e, s, d) == Found(r.indent, BodyAt(b, r, d), BodyAt(b, r, d) + |r.body|)
  {
    hide OccursAt, Occurs, FindFrom, LineStart, ReadBody, Marker;
    MarkedHere(b, s, d, r.lead, r.indent);
    IndentedLine(s, d, r.lead, r.indent);
    OpeningEnds(b, r.rest, s, BeginAt(r, d));
    BodyIsRead(e, s, BodyAt(b, r, d), r.body, r.indent);
  }

  lemma BodyIsRead(e: string, s: string, d: nat, body: string, indent: string)
    requires Marker(e) && WholeLines(body) && Spaces(indent) && !Occurs(e, body) && d > 0 && OccursAt("\n", s, d - 1)
    requires OccursAt(body, s, d) && OccursAt(indent, s, d + |body|) && OccursAt(e, s, d + |body| + |indent|)
    ensures ReadBody(e, s, indent, d) == Found(indent, d, d + |body|)
  {
    hide OccursAt, Occurs, FindFrom, LineStart, Marker;
    MarkedHere(e, s, d, body, indent);
    LineFeedAt(s, d - 1);
    IndentedLine(s, d, body, indent);
  }

  lemma LineFeedAt(s: string, i: int)
    ensures OccursAt("\n", s, i) <==> 0 <= i < |s| && s[i] == '\n'
  {
  }

  lemma IndentedLine(s: string, d: nat, lines: string, indent: string)
    requires WholeLines(lines) && (lines == "" ==> d == 0 || (d <= |s| && s[d - 1] == '\n')) && Spaces(indent)
    requires OccursAt(lines, s, d) && OccursAt(indent, s, d + |lines|)
    ensures s[LineStart(s, d + |lines| + |indent|)..d + |lines| + |indent|] == indent
    ensures LineStart(s, d + |lines| + |indent|) == d + |lines|
  {
    LineStartsAt(s, d + |lines| + |indent|, d + |lines|);
  }

  lemma OpeningEnds(b: string, rest: string, s: string, at: nat)
    requires Marker(b) && OneLine(rest)
    requires OccursAt(b, s, at) && OccursAt(rest, s, at + |b|) && OccursAt("\n", s, at + |b| + |rest|)
    ensures FindFrom("\n", s, at) == Some(at + |b| + |rest|)
  {
    forall i | at <= i < at + |b| + |rest| ensures !OccursAt("\n", s, i) {
      LineFeedAt(s, i);
    }
    FoundAt("\n", s, at, at + |b| + |rest|);
  }

  /** Text already passed: nothing yet, or everything up to an end marker. */
  ghost predicate Behind(e: string, s: string, d: nat) {
    d == 0 || OccursAt(e, s, d - |e|)
  }

  /** What is read is a region. */
  lemma ReadIsRegion(b: string, e: string, s: string, d: nat) returns (r: Region)
    requires Marker(b) && Marker(e) && d <= |s| && Behind(e, s, d)
    requires NextRegion(b, e, s, d).Found?
    ensures IsRegion(b, e, r, d == 0) && Laid(b, e, s, d, r)
  {
    hide OccursAt, Occurs, FindFrom, LineStart, ReadBody, Marker, WholeLines, OneLine, Behind;
    var at := FindFrom(b, s, d).value;
    var indent := s[LineStart(s, at)..at];
    var lead := LeadRead(b, e, s, d, at, indent);
    var lineEnd := FindFrom("\n", s, at).value;
    var rest := OpeningRead(b, s, at, lineEnd);
    var body := BodyRead(e, s, indent, lineEnd + 1);
    r := Region(lead, indent, rest, body);
  }

  lemma SliceOccurs(s: string, i: nat, j: nat)
    requires i <= j <= |s|
    ensures OccursAt(s[i..j], s, i)
  {
  }

  lemma LeadRead(b: string, e: string, s: string, d: nat, at: nat, indent: string) returns (lead: string)
    requires Marker(b) && Marker(e) && d <= at <= |s| && Behind(e, s, d)
    requires FindFrom(b, s, d) == Some(at) && indent == s[LineStart(s, at)..at] && Spaces(indent)
    ensures WholeLines(lead) && (lead == "" ==> d == 0) && !Occurs(b, lead) && at == d + |lead| + |indent|
    ensures OccursAt(lead, s, d) && OccursAt(indent, s, d + |lead|) && OccursAt(b, s, at)
  {
    LeadIsNew(e, s, d, at);
    hide OccursAt, Occurs, FindFrom, LineStart, Behind, WholeLines;
    var line := LineStart(s, at);
    lead := s[d..line];
    NotBefore(b, s, d, line, at) by { assert b != "" by { assert Marker(b); } }
    FindIsFirst(b, s, d);
    SliceOccurs(s, d, line);
    SliceOccurs(s, line, at);
  }

  /** The line of a region starts after everything passed. */
  lemma LeadIsNew(e: string, s: string, d: nat, at: nat)
    requires Marker(e) && d <= at <= |s| && Behind(e, s, d) && Spaces(s[LineStart(s, at)..at])
    ensures var line := LineStart(s, at);
      line >= d && (line == d ==> d == 0) && WholeLines(s[d..line])
  {
    var line := LineStart(s, at);
    LineStartIsStart(s, at);
    assert forall i :: line <= i < at ==> s[i] == s[line..at][i - line];
    if d != 0 {
      assert s[d - |e|] == '-';
      assert line > d - |e|;
    }
  }

  /** The first line feed after a begin marker lies behind the marker. */
  lemma OpeningRead(b: string, s: string, at: nat, lineEnd: nat) returns (rest: string)
    requires Marker(b) && OccursAt(b, s, at) && FindFrom("\n", s, at) == Some(lineEnd)
    ensures OneLine(rest) && lineEnd == at + |b| + |rest| && lineEnd < |s| && s[lineEnd] == '\n'
    ensures OccursAt(rest, s, at + |b|) && OccursAt("\n", s, lineEnd)
  {
    FindIsFirst("\n", s, at);
    LineFeedAt(s, lineEnd);
    forall i | at <= i < lineEnd ensures s[i] != '\n' {
      LineFeedAt(s, i);
    }
    rest := s[at + |b|..lineEnd];
  }

  lemma BodyRead(e: string, s: string, indent: string, d: nat) returns (body: string)
    requires Marker(e) && 0 < d <= |s| && s[d - 1] == '\n' && ReadBody(e, s, indent, d).Found?
    ensures WholeLines(body) && !Occurs(e, body)
    ensures OccursAt(body, s, d) && OccursAt(indent, s, d + |body|) && OccursAt(e, s, d + |body| + |indent|)
  {
    var endAt := FindFrom(e, s, d).value;
    var endLine := LineStart(s, endAt);
    FindIsFirst(e, s, d);
    LineStartIsStart(s, endAt);
    body := s[d..endLine];
    NotBefore(e, s, d, endLine, endAt);
  }

  /** No occurrence in a part that ends before the first one. */
  lemma NotBefore(m: string, s: string, d: nat, to: nat, at: nat)
    requires m != "" && d <= to <= at <= |s| && FindFrom(m, s, d) == Some(at)
    ensures !Occurs(m, s[d..to])
  {
    FindIsFirst(m, s, d);
    forall i ensures !OccursAt(m, s[d..to], i) {
      if 0 <= i <= to - d - |m| {
        OccursWithin(m, s[d..to], s, d, d + i);
      }
    }
  }

  // The regions of a text are determined by it.

  lemma SameRegion(b: string, e: string, s: string, d: nat, r: Region, q: Region)
    requires Marker(b) && Marker(e) && IsRegion(b, e, r, d == 0) && IsRegion(b, e, q, d == 0)
    requires Laid(b, e, s, d, r) && Laid(b, e, s, d, q)
    ensures r == q
  {
    hide OccursAt, Occurs, FindFrom, NextRegion, Marker;
    RegionIsRead(b, e, s, d, r);
    RegionIsRead(b, e, s, d, q);
    SameOccurrence(r.lead, q.lead, s, d);
    SameOccurrence(r.rest, q.rest, s, BeginAt(r, d) + |b|);
    SameOccurrence(r.body, q.body, s, BodyAt(b, r, d));
  }

  lemma SameOccurrence(p: string, q: string, s: string, d: nat)
    requires |p| == |q| && OccursAt(p, s, d) && OccursAt(q, s, d)
    ensures p == q
  {
    assert forall i :: 0 <= i < |p| ==> p[i] == s[d + i] == q[i];
  }

  lemma {:induction false} RenderPrefix(b: string, e: string, regions: seq<Region>, k: nat)
    requires k <= |regions|
    ensures Render(b, e, regions[..k]) <= Render(b, e, regions)
  {
    if k == |regions| {
      assert regions[..k] == regions;
    } else {
      var init := regions[..|regions| - 1];
      RenderPrefix(b, e, init, k);
      assert init[..k] == regions[..k];
    }
  }

  lemma RenderSnoc(b: string, e: string, regions: seq<Region>, r: Region)
    ensures Render(b, e, regions + [r]) == Render(b, e, regions) + Text(b, e, r)
  {
    assert (regions + [r])[..|regions|] == regions;
  }

  /** After some of its regions, a text goes on with the next one, or with the tail. */
  lemma Continues(b: string, e: string, contents: string, regions: seq<Region>, tail: string, k: nat, rest: string)
    requires Whole(b, e, contents, regions, tail) && k <= |regions|
    requires contents == Render(b, e, regions[..k]) + rest
    ensures k == |regions| ==> rest == tail
    ensures k < |regions| ==> OccursAt(Text(b, e, regions[k]), rest, 0)
  {
    hide Text, IsRegion, OccursAt, Occurs;
    var done := Render(b, e, regions[..k]);
    if k == |regions| {
      assert regions[..k] == regions;
      assert contents[|done|..] == rest;
    } else {
      assert regions[..k + 1] == regions[..k] + [regions[k]];
      RenderSnoc(b, e, regions[..k], regions[k]);
      RenderPrefix(b, e, regions, k + 1);
      PrefixOccurs(done, Text(b, e, regions[k]), rest, contents);
    }
  }

  lemma PrefixOccurs(done: string, part: string, rest: string, contents: string)
    requires contents == done + rest && done + part <= contents
    ensures OccursAt(part, rest, 0)
  {
    assert forall i :: 0 <= i < |part| ==> part[i] == (done + part)[|done| + i] == contents[|done| + i] == rest[i];
  }

  lemma OccursShifted(p: string, done: string, rest: string)
    requires OccursAt(p, rest, 0)
    ensures OccursAt(p, done + rest, |done|)
  {
  }

  /** What is read next, with any text passed in place of the regions before. */
  lemma NextIs(b: string, e: string, contents: string, regions: seq<Region>, tail: string, k: nat, done: string,
               rest: string)
    requires Marker(b) && Marker(e) && Whole(b, e, contents, regions, tail) && k <= |regions|
    requires contents == Render(b, e, regions[..k]) + rest && (done == "" <==> k == 0)
    ensures k == |regions| <==> NextRegion(b, e, done + rest, |done|).NoMore?
    ensures k < |regions| ==>
      Laid(b, e, done + rest, |done|, regions[k]) && NextRegion(b, e, done + rest, |done|).Found?
  {
    hide Render, OccursAt, Text, Laid, Marker;
    Continues(b, e, contents, regions, tail, k, rest);
    if k == |regions| {
      NothingMore(b, done, rest);
    } else {
      OccursShifted(Text(b, e, regions[k]), done, rest);
      LaidIsText(b, e, done + rest, |done|, regions[k]);
      RegionIsRead(b, e, done + rest, |done|, regions[k]);
    }
  }

  lemma NothingMore(b: string, done: string, rest: string)
    ensures FindFrom(b, done + rest, |done|).None? <==> !Occurs(b, rest)
  {
    var s := done + rest;
    FindIsFirst(b, s, |done|);
    assert OccursAt(rest, s, |done|);
    forall i | |done| <= i <= |s| - |b| ensures OccursAt(b, s, i) <==> OccursAt(b, rest, i - |done|) {
      OccursWithin(b, rest, s, |done|, i);
    }
    assert forall i :: OccursAt(b, rest, i) ==> OccursAt(b, s, i + |done|);
  }

  lemma {:induction false} SameRegions(b: string, e: string, contents: string,
                                       regions: seq<Region>, tail: string, others: seq<Region>, other: string, k: nat)
    requires Marker(b) && Marker(e) && k <= |regions| && k <= |others|
    requires Whole(b, e, contents, regions, tail) && Whole(b, e, contents, others, other)
    ensures regions[..k] == others[..k]
  {
    hide Render, Laid, IsRegion, Marker, Occurs, NextRegion;
    if k > 0 {
      SameRegions(b, e, contents, regions, tail, others, other, k - 1);
      var done := Render(b, e, regions[..k - 1]);
      RenderPrefix(b, e, regions, k - 1);
      PassedText(b, e, contents, regions, tail, k - 1);
      var rest := contents[|done|..];
      assert contents == done + rest;
      NextIs(b, e, contents, regions, tail, k - 1, done, rest);
      NextIs(b, e, contents, others, other, k - 1, done, rest);
      SameRegion(b, e, contents, |done|, regions[k - 1], others[k - 1]);
      assert regions[..k] == regions[..k - 1] + [regions[k - 1]];
      assert others[..k] == others[..k - 1] + [others[k - 1]];
    }
  }

  lemma PassedText(b: string, e: string, contents: string, regions: seq<Region>, tail: string, k: nat)
    requires Marker(b) && Whole(b, e, contents, regions, tail) && k <= |regions|
    ensures Render(b, e, regions[..k]) == "" <==> k == 0
  {
    if k > 0 {
      assert regions[..k][..k - 1] == regions[..k - 1];
      assert |Text(b, e, regions[k - 1])| > 0;
    }
  }

  /** `out` is the contents with the body of each of its `n` regions replaced, and nothing else. */
  ghost predicate Replaced(b: string, e: string, lines: seq<string>, contents: string, n: nat, out: string) {
    exists regions, tail ::
      Whole(b, e, contents, regions, tail) && |regions| == n && out == Render(b, e, RewriteAll(regions, lines)) + tail
  }

  lemma ReplacedOnce(b: string, e: string, lines: seq<string>, contents: string, n: nat, out: string, other: string)
    requires Marker(b) && Marker(e)
    requires Replaced(b, e, lines, contents, n, out) && Replaced(b, e, lines, contents, n, other)
    ensures out == other
  {
    hide Render, IsRegion, Marker, Occurs;
    var regions, tail :| Whole(b, e, contents, regions, tail) && |regions| == n
      && out == Render(b, e, RewriteAll(regions, lines)) + tail;
    var regions', tail' :| Whole(b, e, contents, regions', tail') && |regions'| == n
      && other == Render(b, e, RewriteAll(regions', lines)) + tail';
    SameRegions(b, e, contents, regions, tail, regions', tail', n);
    assert regions[..n] == regions && regions'[..n] == regions';
    assert contents[|Render(b, e, regions)|..] == tail == tail';
  }

  // Running the replacement again.

  lemma {:induction false} IndentedMarks(m: string, indent: string, lines: seq<string>)
    requires Marker(m) && Spaces(indent) && forall i :: 0 <= i < |lines| ==> OneLine(lines[i])
    ensures WholeLines(Indented(indent, lines))
    ensures Occurs(m, Indented(indent, lines)) <==> exists i :: 0 <= i < |lines| && Occurs(m, lines[i])
  {
    if lines != [] {
      var rest := Indented(indent, lines[1..]);
      IndentedMarks(m, indent, lines[1..]);
      MarkInLine(m, indent, lines[0], rest);
      assert Indented(indent, lines) == indent + lines[0] + "\n" + rest;
      assert forall i :: 0 <= i < |lines[1..]| ==> lines[1..][i] == lines[i + 1];
    }
  }

  lemma MarkInLine(m: string, indent: string, line: string, rest: string)
    requires Marker(m) && Spaces(indent) && OneLine(line)
    ensures Occurs(m, indent + line + "\n" + rest) <==> Occurs(m, line) || Occurs(m, rest)
  {
    var s, l, n := indent + line + "\n" + rest, |indent|, |indent| + |line| + 1;
    assert OccursAt(line, s, l) && OccursAt(rest, s, n);
    forall i | OccursAt(m, s, i) ensures Occurs(m, line) || Occurs(m, rest) {
      assert s[i] == '-' && s[n - 1] == '\n';
      assert i >= l by {
        assert forall x :: 0 <= x < l ==> s[x] == ' ';
      }
      if i + |m| < n {
        OccursWithin(m, line, s, l, i);
      } else {
        assert i >= n;
        OccursWithin(m, rest, s, n, i);
      }
    }
    forall i | OccursAt(m, line, i) ensures Occurs(m, s) {
      OccursWithin(m, line, s, l, l + i);
    }
    forall i | OccursAt(m, rest, i) ensures Occurs(m, s) {
      OccursWithin(m, rest, s, n, n + i);
    }
  }

  ghost predicate Mentions(lines: seq<string>, m: string) {
    exists i :: 0 <= i < |lines| && Occurs(m, lines[i])
  }

  /** Lines without the end marker: the result has the same regions, with the bodies it should have. */
  lemma RewrittenIsWhole(b: string, e: string, lines: seq<string>, contents: string, regions: seq<Region>, tail: string)
    requires Marker(b) && Marker(e) && (forall i :: 0 <= i < |lines| ==> OneLine(lines[i])) && !Mentions(lines, e)
    requires Whole(b, e, contents, regions, tail)
    ensures Whole(b, e, Render(b, e, RewriteAll(regions, lines)) + tail, RewriteAll(regions, lines), tail)
    ensures RewriteAll(RewriteAll(regions, lines), lines) == RewriteAll(regions, lines)
  {
    hide Render, Indented, Marker, WholeLines, OneLine, Occurs;
    forall i | 0 <= i < |regions| ensures IsRegion(b, e, RewriteAll(regions, lines)[i], i == 0) {
      assert IsRegion(b, e, regions[i], i == 0);
      IndentedMarks(e, regions[i].indent, lines);
    }
  }

  /** A marker line among the expected lines: even one region, once written, is not read back as written. */
  lemma MentionIsUnstable(b: string, e: string, lines: seq<string>, out: string)
    requires Marker(b) && Marker(e) && (forall i :: 0 <= i < |lines| ==> OneLine(lines[i])) && Mentions(lines, e)
    ensures !Replaced(b, e, lines, out, 1, out)
  {
    hide Indented, Marker, WholeLines, OneLine;
    forall regions, tail | Whole(b, e, out, regions, tail) && |regions| == 1
      ensures out != Render(b, e, RewriteAll(regions, lines)) + tail
    {
      var r := regions[0];
      assert IsRegion(b, e, r, true);
      IndentedMarks(e, r.indent, lines);
      OneRendered(b, e, r);
      OneRendered(b, e, Rewrite(r, lines));
      assert regions == [r] && RewriteAll(regions, lines) == [Rewrite(r, lines)];
      assert r.body != Indented(r.indent, lines);
      DifferentBodies(b, e, r, Rewrite(r, lines), tail);
    }
  }

  lemma OneRendered(b: string, e: string, r: Region)
    ensures Render(b, e, [r]) == Text(b, e, r)
  {
    assert Render(b, e, []) == "";
    assert [r][..0] == [];
  }

  lemma DifferentBodies(b: string, e: string, r: Region, q: Region, tail: string)
    requires q == r.(body := q.body) && q.body != r.body
    ensures Text(b, e, r) + tail != Text(b, e, q) + tail
  {
    var s, t := Text(b, e, r) + tail, Text(b, e, q) + tail;
    if s == t {
      assert |r.body| == |q.body|;
      LaidIsText(b, e, s, 0, r);
      LaidIsText(b, e, t, 0, q);
      SameOccurrence(r.body, q.body, s, BodyAt(b, r, 0));
    }
  }

  lemma EmptyRegion(b: string, e: string, lines: seq<string>)
    requires Marker(b) && Marker(e)
    ensures exists contents, out :: Replaced(b, e, lines, contents, 1, out)
  {
    var r := Region("", "", "", "");
    OneRendered(b, e, r);
    assert !Occurs(b, "") && !Occurs(e, "");
    assert Whole(b, e, Text(b, e, r) + "", [r], "");
    assert Replaced(b, e, lines, Text(b, e, r) + "", 1, Render(b, e, RewriteAll([r], lines)) + "");
  }

  /** Replacing again changes nothing, whatever the contents, exactly when no expected line holds the end marker. */
  lemma RerunIsStableIff(name: string, expected: string)
    requires OneLine(name)
    ensures var b, e, lines := Begin(name), End(name), Lines(expected);
      (forall contents, n, out :: Replaced(b, e, lines, contents, n, out) ==> Replaced(b, e, lines, out, n, out))
      <==> !Mentions(lines, e)
  {
    hide Begin, End, Lines, Marker;
    var b, e, lines := Begin(name), End(name), Lines(expected);
    Markers(name);
    LinesAreLines(expected);
    if Mentions(lines, e) {
      EmptyRegion(b, e, lines);
      var contents, out :| Replaced(b, e, lines, contents, 1, out);
      MentionIsUnstable(b, e, lines, out);
    } else {
      forall contents, n, out | Replaced(b, e, lines, contents, n, out) ensures Replaced(b, e, lines, out, n, out) {
        var regions, tail :| Whole(b, e, contents, regions, tail) && |regions| == n
          && out == Render(b, e, RewriteAll(regions, lines)) + tail;
        RewrittenIsWhole(b, e, lines, contents, regions, tail);
      }
    }
  }

  // The loop.

  /** `seen` regions are rewritten; `rest` is still to be searched; every reading of the contents begins with `seen`. */
  ghost predicate Progress(b: string, e: string, lines: seq<string>, contents: string,
                           seen: seq<Region>, rest: string, rendered: string, start: nat) {
    && contents == Render(b, e, seen) + rest
    && rendered == Render(b, e, RewriteAll(seen, lines)) + rest && start == |Render(b, e, RewriteAll(seen, lines))|
    && (forall i :: 0 <= i < |seen| ==> IsRegion(b, e, seen[i], i == 0))
    && (start == 0 <==> seen == []) && Behind(e, rendered, start)
    && (forall regions, tail :: Whole(b, e, contents, regions, tail) ==> seen <= regions)
  }

  lemma NextInProgress(b: string, e: string, lines: seq<string>, contents: string, seen: seq<Region>, rest: string,
                       rendered: string, start: nat, regions: seq<Region>, tail: string)
    requires Marker(b) && Marker(e) && Progress(b, e, lines, contents, seen, rest, rendered, start)
    requires Whole(b, e, contents, regions, tail)
    ensures seen <= regions && (regions == seen <==> NextRegion(b, e, rendered, start).NoMore?)
    ensures regions == seen ==> rest == tail
    ensures regions != seen ==>
      Laid(b, e, rendered, start, regions[|seen|]) && NextRegion(b, e, rendered, start).Found?
  {
    hide Render, NextRegion, Laid, Marker, Behind, IsRegion, Occurs;
    assert seen <= regions && regions[..|seen|] == seen;
    NextIs(b, e, contents, regions, tail, |seen|, Render(b, e, RewriteAll(seen, lines)), rest);
    Continues(b, e, contents, regions, tail, |seen|, rest);
  }

  lemma Finished(b: string, e: string, lines: seq<string>, contents: string, seen: seq<Region>, rest: string,
                 rendered: string, start: nat)
    requires Marker(b) && Marker(e) && Progress(b, e, lines, contents, seen, rest, rendered, start)
    requires NextRegion(b, e, rendered, start).NoMore?
    ensures Replaced(b, e, lines, contents, |seen|, rendered)
    ensures forall n, out :: Replaced(b, e, lines, contents, n, out) ==> n == |seen|
  {
    hide Render, Marker, IsRegion;
    NothingMore(b, Render(b, e, RewriteAll(seen, lines)), rest);
    assert Whole(b, e, contents, seen, rest);
    forall regions, tail | Whole(b, e, contents, regions, tail) ensures |regions| == |seen| {
      NextInProgress(b, e, lines, contents, seen, rest, rendered, start, regions, tail);
    }
  }

  lemma NotReplaceable(b: string, e: string, lines: seq<string>, contents: string, seen: seq<Region>, rest: string,
                       rendered: string, start: nat)
    requires Marker(b) && Marker(e) && Progress(b, e, lines, contents, seen, rest, rendered, start)
    requires NextRegion(b, e, rendered, start).Malformed?
    ensures forall n, out :: !Replaced(b, e, lines, contents, n, out)
  {
    hide Render, Marker, IsRegion, NextRegion, Progress;
    forall regions, tail ensures !Whole(b, e, contents, regions, tail) {
      if Whole(b, e, contents, regions, tail) {
        NextInProgress(b, e, lines, contents, seen, rest, rendered, start, regions, tail);
      }
    }
  }

  lemma Advance(b: string, e: string, lines: seq<string>, contents: string, seen: seq<Region>, rest: string,
                rendered: string, start: nat) returns (r: Region, more: string)
    requires Marker(b) && Marker(e) && Progress(b, e, lines, contents, seen, rest, rendered, start)
    requires NextRegion(b, e, rendered, start).Found?
    ensures var bodyStart := BodyAt(b, r, start);
      && NextRegion(b, e, rendered, start) == Found(r.indent, bodyStart, bodyStart + |r.body|)
      && bodyStart + |r.body| <= |rendered| && |more| < |rest|
      && var body := Indented(r.indent, lines);
      && bodyStart + |body| + |r.indent| + |e| <= |rendered[..bodyStart] + body + rendered[bodyStart + |r.body|..]|
      && Progress(b, e, lines, contents, seen + [r], more,
                  rendered[..bodyStart] + body + rendered[bodyStart + |r.body|..],
                  bodyStart + |body| + |r.indent| + |e|)
  {
    hide Render, NextRegion, Marker, IsRegion, Laid, Text, Indented, Occurs, OccursAt;
    r := ReadIsRegion(b, e, rendered, start);
    RegionIsRead(b, e, rendered, start, r);
    LaidIsText(b, e, rendered, start, r);
    var done := Render(b, e, RewriteAll(seen, lines));
    more := RestAfter(Text(b, e, r), done, rest);
    assert RewriteAll(seen + [r], lines) == RewriteAll(seen, lines) + [Rewrite(r, lines)];
    RenderSnoc(b, e, seen, r);
    RenderSnoc(b, e, RewriteAll(seen, lines), Rewrite(r, lines));
    assert contents == Render(b, e, seen + [r]) + more;
    assert rendered == done + Text(b, e, r) + more;
    Splice(b, e, r, lines, done, more);
    forall i | 0 <= i < |seen + [r]| ensures IsRegion(b, e, (seen + [r])[i], i == 0) {
    }
    forall regions, tail | Whole(b, e, contents, regions, tail) ensures seen + [r] <= regions {
      NextInProgress(b, e, lines, contents, seen, rest, rendered, start, regions, tail);
      SameRegion(b, e, rendered, start, r, regions[|seen|]);
    }
  }

  lemma RestAfter(part: string, done: string, rest: string) returns (more: string)
    requires OccursAt(part, done + rest, |done|)
    ensures rest == part + more
  {
    more := rest[|part|..];
    assert forall i :: 0 <= i < |part| ==> part[i] == (done + rest)[|done| + i] == rest[i];
  }

  /** Replacing the body in place, in the text itself. */
  lemma Splice(b: string, e: string, r: Region, lines: seq<string>, done: string, more: string)
    ensures var s, at, body := done + Text(b, e, r) + more, BodyAt(b, r, |done|), Indented(r.indent, lines);
      && at + |r.body| <= |s|
      && s[..at] + body + s[at + |r.body|..] == done + Text(b, e, Rewrite(r, lines)) + more
      && |Text(b, e, Rewrite(r, lines))| == at - |done| + |body| + |r.indent| + |e|
      && Behind(e, done + Text(b, e, Rewrite(r, lines)) + more, at + |body| + |r.indent| + |e|)
  {
    hide Indented;
  }

  /** replace_all_sql_regions. */
  method ReplaceAll(contents: string, name: string, expected: string, expectedCount: nat) returns (r: Option<string>)
    requires OneLine(name)
    ensures var b, e := "-- BEGIN GENERATED: " + name, "-- END GENERATED: " + name;
            if r.Some? then
              Replaced(b, e, Lines(expected), contents, expectedCount, r.value)
            else
              forall out :: !Replaced(b, e, Lines(expected), contents, expectedCount, out)
  {
    hide Lines, Marker, Progress, NextRegion, Replaced, Indented, Render;
    var b, e, lines := Begin(name), End(name), Lines(expected);
    Markers(name);
    var rendered: string, searchStart: nat, count := contents, 0, 0;
    ghost var seen: seq<Region>, rest := [], contents;
    Started(b, e, lines, contents);
    while true
      invariant Progress(b, e, lines, contents, seen, rest, rendered, searchStart) && count == |seen|
      invariant searchStart <= |rendered|
      decreases |rest|
    {
      match NextRegion(b, e, rendered, searchStart) {
        case NoMore =>
          Finished(b, e, lines, contents, seen, rest, rendered, searchStart);
          break;
        case Malformed =>
          NotReplaceable(b, e, lines, contents, seen, rest, rendered, searchStart);
          return None;
        case Found(indent, bodyStart, endLineStart) =>
          ghost var next, more := Advance(b, e, lines, contents, seen, rest, rendered, searchStart);
          var body := Indented(indent, lines);
          rendered := rendered[..bodyStart] + body + rendered[endLineStart..];
          searchStart := bodyStart + |body| + |indent| + |e|;
          count := count + 1;
          seen, rest := seen + [next], more;
      }
    }
    r := if count != expectedCount then None else Some(rendered);
  }

  lemma Started(b: string, e: string, lines: seq<string>, contents: string)
    ensures Progress(b, e, lines, contents, [], contents, contents, 0)
  {
    assert "" + contents == contents;
    assert RewriteAll([], lines) == [];
  }
}
