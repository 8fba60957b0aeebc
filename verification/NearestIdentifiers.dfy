/** nearest_identifiers: the catalog names at the smallest edit distance, when that is at most two. */
module NearestIdentifiers {
  import opened EditDistance
  import Utf8

  const MAX_DISTANCE: nat := 2

  function Width(c: char): nat {
    var code := c as int;
    if code < 0x80 then 1 else if code < 0x800 then 2 else if code < 0x1_0000 then 3 else 4
  }

  /** str::len, the number of UTF-8 bytes. */
  function ByteLength(s: string): nat {
    if s == [] then 0 else ByteLength(s[..|s| - 1]) + Width(s[|s| - 1])
  }

  /** The width is that of the encoding (section 3 of RFC 3629). */
  lemma WidthIsEncoded(c: char)
    ensures Width(c) == |Utf8.Encode(c as int)|
  {
  }

  predicate Ascii(s: string) {
    forall i :: 0 <= i < |s| ==> s[i] as int < 0x80
  }

  function AbsDiff(a: nat, b: nat): nat {
    if a <= b then b - a else a - b
  }

  predicate PassesLengthFilter(candidate: string, name: string) {
    AbsDiff(ByteLength(candidate), ByteLength(name)) <= MAX_DISTANCE
  }

  /** The names within reach that no other name of the set beats. */
  function Closest(candidate: string, names: set<string>): set<string> {
    set name | name in names && Distance(candidate, name) <= MAX_DISTANCE &&
               forall other :: other in names ==> Distance(candidate, name) <= Distance(candidate, other)
  }

  function Filtered(candidate: string, names: set<string>): set<string> {
    set name | name in names && PassesLengthFilter(candidate, name)
  }

  type Match = (nat, string)

  predicate SortedByDistance(matches: seq<Match>) {
    forall i, j :: 0 <= i < j < |matches| ==> matches[i].0 <= matches[j].0
  }

  /** One insertion of the sort. Names at one distance may come in any order: only distances matter below. */
  function InsertMatch(m: Match, sorted: seq<Match>): (r: seq<Match>)
    requires SortedByDistance(sorted)
    ensures SortedByDistance(r)
    ensures forall x :: x in r <==> x == m || x in sorted
  {
    if sorted == [] || m.0 <= sorted[0].0 then
      [m] + sorted
    else
      var rest := InsertMatch(m, sorted[1..]);
      assert forall x :: x in sorted <==> x == sorted[0] || x in sorted[1..];
      assert forall k :: 0 <= k < |rest| ==> rest[k] in rest && sorted[0].0 <= rest[k].0;
      [sorted[0]] + rest
  }

  method Sort(matches: seq<Match>) returns (sorted: seq<Match>)
    ensures SortedByDistance(sorted)
    ensures forall x :: x in sorted <==> x in matches
  {
    sorted := [];
    for i := 0 to |matches|
      invariant SortedByDistance(sorted)
      invariant forall x :: x in sorted <==> x in matches[..i]
    {
      sorted := InsertMatch(matches[i], sorted);
    }
    assert matches[..|matches|] == matches;
  }

  /** The matches are the names within reach, with their distances. */
  ghost predicate Matches(candidate: string, names: set<string>, matches: seq<Match>) {
    forall m :: m in matches <==> m.1 in names && m.0 == Distance(candidate, m.1) && m.0 <= MAX_DISTANCE
  }

  method CollectMatches(candidate: string, names: set<string>) returns (matches: seq<Match>)
    ensures Matches(candidate, Filtered(candidate, names), matches)
  {
    hide Distance;
    matches := [];
    var todo := names;
    while todo != {}
      invariant todo <= names
      invariant Matches(candidate, Filtered(candidate, names - todo), matches)
      decreases todo
    {
      var name :| name in todo;
      todo := todo - {name};
      if AbsDiff(ByteLength(candidate), ByteLength(name)) <= 2 {
        var distance := Compute(candidate, name);
        if distance <= 2 {
          matches := matches + [(distance, name)];
        }
      }
    }
    assert names - todo == names;
  }

  lemma NameMatches(candidate: string, names: set<string>, matches: seq<Match>, name: string)
    requires Matches(candidate, names, matches) && name in names && Distance(candidate, name) <= MAX_DISTANCE
    ensures (Distance(candidate, name), name) in matches
  {
    hide Distance;
  }

  lemma NoMatches(candidate: string, names: set<string>)
    requires Matches(candidate, names, [])
    ensures Closest(candidate, names) == {}
  {
    hide Distance;
    forall name | name in Closest(candidate, names) ensures false {
      NameMatches(candidate, names, [], name);
    }
  }

  /** The matches at the distance of the first are the closest names. */
  lemma BestMatches(candidate: string, names: set<string>, matches: seq<Match>, name: string)
    requires Matches(candidate, names, matches) && matches != [] && SortedByDistance(matches)
    ensures name in Closest(candidate, names) <==> (matches[0].0, name) in matches
  {
    hide Distance;
    assert matches[0] in matches;
    if (matches[0].0, name) in matches {
      forall other | other in names
        ensures matches[0].0 <= Distance(candidate, other)
      {
        if Distance(candidate, other) <= MAX_DISTANCE {
          NameMatches(candidate, names, matches, other);
        }
      }
    }
    if name in Closest(candidate, names) {
      NameMatches(candidate, names, matches, name);
    }
  }

  /** Names whose byte lengths differ by at most two. */
  predicate LengthsClose(candidate: string, name: string) {
    ByteLength(candidate) <= ByteLength(name) + 2 && ByteLength(name) <= ByteLength(candidate) + 2
  }

  /** Exactly the closest of the names that pass the byte-length filter. */
  method Nearest(candidate: string, names: set<string>) returns (nearest: set<string>)
    ensures nearest == Closest(candidate, Filtered(candidate, names))
    ensures forall name :: name in nearest <==>
      && name in names && LengthsClose(candidate, name) && Distance(candidate, name) <= 2
      && forall other :: other in names && LengthsClose(candidate, other) ==>
           Distance(candidate, name) <= Distance(candidate, other)
  {
    SpelledOut(candidate, names);
    hide Distance, Filtered, Closest, Matches;
    var kept := Filtered(candidate, names);
    var found := CollectMatches(candidate, names);
    var matches := Sort(found);
    assert Matches(candidate, kept, matches) by {
      SameMatches(candidate, kept, found, matches);
    }
    nearest := {};
    if matches == [] {
      NoMatches(candidate, kept);
      return;
    }
    var best := matches[0].0;
    var i := 0;
    while i < |matches| && matches[i].0 == best
      invariant i <= |matches|
      invariant forall name :: name in nearest <==> (best, name) in matches[..i]
    {
      nearest := nearest + {matches[i].1};
      i := i + 1;
    }
    forall name
      ensures name in nearest <==> name in Closest(candidate, kept)
    {
      BestMatches(candidate, kept, matches, name);
      TakenPrefix(matches, i, name);
    }
  }

  lemma SpelledOut(candidate: string, names: set<string>)
    ensures forall name :: name in Closest(candidate, Filtered(candidate, names)) <==>
      && name in names && LengthsClose(candidate, name) && Distance(candidate, name) <= 2
      && forall other :: other in names && LengthsClose(candidate, other) ==>
           Distance(candidate, name) <= Distance(candidate, other)
  {
    hide Distance, ByteLength;
    assert forall name :: name in Filtered(candidate, names) <==> name in names && LengthsClose(candidate, name);
  }

  lemma SameMatches(candidate: string, names: set<string>, found: seq<Match>, matches: seq<Match>)
    requires Matches(candidate, names, found) && forall x :: x in matches <==> x in found
    ensures Matches(candidate, names, matches)
  {
    hide Distance;
  }

  lemma TakenPrefix(matches: seq<Match>, i: nat, name: string)
    requires SortedByDistance(matches) && matches != [] && i <= |matches|
    requires i < |matches| ==> matches[i].0 != matches[0].0
    ensures (matches[0].0, name) in matches <==> (matches[0].0, name) in matches[..i]
  {
    if (matches[0].0, name) in matches {
      var k :| 0 <= k < |matches| && matches[k] == (matches[0].0, name);
      assert k < i;
      assert matches[..i][k] == matches[k];
    }
  }

  // ---------- What the filter drops ----------

  lemma {:induction false} AsciiLength(s: string)
    requires Ascii(s)
    ensures ByteLength(s) == |s|
  {
    if s != [] {
      AsciiLength(s[..|s| - 1]);
    }
  }

  /** A filter that every closest name passes changes nothing. */
  lemma PassedFilterIsHarmless(candidate: string, names: set<string>)
    requires forall name :: name in Closest(candidate, names) ==> PassesLengthFilter(candidate, name)
    ensures Closest(candidate, Filtered(candidate, names)) == Closest(candidate, names)
  {
    hide Distance, PassesLengthFilter;
    var kept := Filtered(candidate, names);
    forall name | name in Closest(candidate, kept)
      ensures name in Closest(candidate, names)
    {
      var least := Smallest(candidate, names, name);
      assert least in Closest(candidate, names) && least in kept;
    }
  }

  /** Some name of the set is no further than `start` and no further than any other. */
  lemma Smallest(candidate: string, names: set<string>, start: string) returns (least: string)
    requires start in names
    ensures least in names && Distance(candidate, least) <= Distance(candidate, start)
    ensures forall other :: other in names ==> Distance(candidate, least) <= Distance(candidate, other)
    decreases Distance(candidate, start)
  {
    if other :| other in names && Distance(candidate, other) < Distance(candidate, start) {
      least := Smallest(candidate, names, other);
    } else {
      least := start;
    }
  }

  /** For ASCII names the filter never drops an answer. */
  lemma AsciiFilterIsHarmless(candidate: string, names: set<string>)
    requires Ascii(candidate) && forall name :: name in names ==> Ascii(name)
    ensures Closest(candidate, Filtered(candidate, names)) == Closest(candidate, names)
  {
    hide Distance;
    forall name | name in Closest(candidate, names)
      ensures PassesLengthFilter(candidate, name)
    {
      AsciiLength(candidate);
      AsciiLength(name);
      LengthBound(candidate, name);
    }
    PassedFilterIsHarmless(candidate, names);
  }

  /** The filter drops no answer, for this candidate and this catalog. */
  ghost predicate Harmless(candidate: string, names: set<string>) {
    Closest(candidate, Filtered(candidate, names)) == Closest(candidate, names)
  }

  ghost predicate Spells(alphabet: set<char>, s: string) {
    forall i :: 0 <= i < |s| ==> s[i] in alphabet
  }

  ghost predicate SpellsAll(alphabet: set<char>, names: set<string>) {
    forall name :: name in names ==> Spells(alphabet, name)
  }

  ghost predicate HarmlessOver(alphabet: set<char>) {
    forall candidate, names :: Spells(alphabet, candidate) && SpellsAll(alphabet, names) ==> Harmless(candidate, names)
  }

  /** Two wide characters are two edits from the empty name, but at least four bytes longer. */
  lemma WidePairIsDropped(c: char)
    requires Width(c) > 1
    ensures !Harmless("", {[c, c]})
  {
    var pair := [c, c];
    LengthToEmpty(pair);
    assert pair[..1] == [c] && [c][..0] == "" && ByteLength("") == 0;
    assert ByteLength(pair) == 2 * Width(c);
    assert Filtered("", {pair}) == {};
    assert pair in Closest("", {pair});
  }

  /** Over an alphabet, the filter drops no answer for any candidate and catalog exactly when the alphabet is ASCII. */
  lemma HarmlessOverAsciiExactly(alphabet: set<char>)
    ensures HarmlessOver(alphabet) <==> forall c :: c in alphabet ==> Width(c) == 1
  {
    hide Distance, Closest, Filtered;
    if forall c :: c in alphabet ==> Width(c) == 1 {
      forall candidate, names | Spells(alphabet, candidate) && SpellsAll(alphabet, names)
        ensures Harmless(candidate, names)
      {
        forall name | name in names ensures Ascii(name) {
          assert Spells(alphabet, name);
        }
        AsciiFilterIsHarmless(candidate, names);
      }
    } else {
      var c :| c in alphabet && Width(c) != 1;
      WidePairIsDropped(c);
      assert Spells(alphabet, [c, c]) && Spells(alphabet, "") && SpellsAll(alphabet, {[c, c]});
    }
  }

  /** Beyond ASCII it can: one three-byte character is one edit from the empty name, but three bytes longer. */
  lemma FilterDropsWideNames()
    ensures var wide := "\U{20AC}";
            && Distance("", wide) == 1
            && Closest("", {wide}) == {wide}
            && Closest("", Filtered("", {wide})) == {}
  {
    var wide := "\U{20AC}";
    assert ByteLength(wide) == ByteLength(wide[..0]) + 3;
    assert Distance("", wide) == 1;
    assert !PassesLengthFilter("", wide);
    assert Filtered("", {wide}) == {};
    assert wide in Closest("", {wide});
  }
}
