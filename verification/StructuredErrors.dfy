/**
 Where the structured parser fails. Its errors have the viable prefix property: everything before the reported
 event can be continued to a whole document, and nothing with that event can.
 */
module StructuredErrors {
  import opened Wrappers
  import opened InstancePath
  import opened StructuredParser

  // ---------- The failing event ----------

  /** How many events are accepted before the parse of a value fails. */
  ghost function FailsAt(s: Stream, path: string): (k: nat)
    requires ParseValue(s, path).Err?
    ensures k <= |s|
    decreases |s|, 0
  {
    if s == [] then 0
    else if s[0].0 == SequenceStart(true) then 1 + FailsAtItem(s[1..], [], path)
    else if s[0].0 == MappingStart(true) then 1 + FailsAtMember(s[1..], map[], map[], path)
    else 0
  }

  ghost function FailsAtItem(s: Stream, items: seq<Value>, path: string): (k: nat)
    requires ParseItems(s, items, path).Err?
    ensures k <= |s|
    decreases |s|, 1
  {
    if s == [] || s[0].0.Broken? then 0
    else
      var childPath := AppendPath(path, Decimal(|items|));
      match ParseValue(s, childPath)
      case Err(_) => FailsAt(s, childPath)
      case Ok(p) => |s| - |p.rest| + FailsAtItem(p.rest, items + [p.value], path)
  }

  ghost function FailsAtMember(s: Stream, members: map<string, Value>, positions: map<string, Position>, path: string)
    : (k: nat)
    requires ParseMembers(s, members, positions, path).Err?
    ensures k <= |s|
    decreases |s|, 1
  {
    if s == [] || !IsName(s[0].0) || s[0].0.key.value in positions then 0
    else
      var key := s[0].0.key.value;
      match ParseValue(s[1..], AppendPath(path, key))
      case Err(_) => 1 + FailsAt(s[1..], AppendPath(path, key))
      case Ok(p) =>
        |s| - |p.rest| + FailsAtMember(p.rest, members[key := p.value], positions[key := s[0].1], path)
  }

  /** The error is about the event at position k; at the end of the stream there is none. */
  ghost predicate About(e: Error, s: Stream, k: nat) {
    match e
    case DuplicateKey(_, _, _, repeated) => k < |s| && s[k].1 == repeated
    case Invalid(_, position) => k <= |s| && position == if k == |s| then None else Some(s[k].1)
  }

  lemma AboutLater(e: Error, s: Stream, n: nat, k: nat)
    requires n <= |s| && About(e, s[n..], k)
    ensures About(e, s, n + k)
  {
  }

  lemma {:induction false} FailureIsThere(s: Stream, path: string)
    requires ParseValue(s, path).Err?
    ensures About(ParseValue(s, path).error, s, FailsAt(s, path))
    decreases |s|, 0
  {
    hide AppendPath, DisplayPath, Decimal;
    if s != [] && s[0].0 == SequenceStart(true) {
      ItemFailureIsThere(s[1..], [], path);
      AboutLater(ParseValue(s, path).error, s, 1, FailsAtItem(s[1..], [], path));
    } else if s != [] && s[0].0 == MappingStart(true) {
      MemberFailureIsThere(s[1..], map[], map[], path);
      AboutLater(ParseValue(s, path).error, s, 1, FailsAtMember(s[1..], map[], map[], path));
    }
  }

  lemma Remainder(s: Stream, path: string)
    requires ParseValue(s, path).Ok?
    ensures var rest := ParseValue(s, path).value.rest; |rest| < |s| && rest == s[|s| - |rest|..]
  {
    var d := ParsedIsEmission(s, path);
  }

  lemma {:induction false} ItemFailureIsThere(s: Stream, items: seq<Value>, path: string)
    requires ParseItems(s, items, path).Err?
    ensures About(ParseItems(s, items, path).error, s, FailsAtItem(s, items, path))
    decreases |s|, 1
  {
    hide AppendPath, DisplayPath, Decimal, ParseValue, FailsAt, About;
    if s == [] || s[0].0.Broken? {
      AboutHere(s, path);
    } else {
      var childPath := AppendPath(path, Decimal(|items|));
      if ParseValue(s, childPath).Err? {
        FailureIsThere(s, childPath);
      } else {
        var p := ParseValue(s, childPath).value;
        Remainder(s, childPath);
        ItemFailureIsThere(p.rest, items + [p.value], path);
        AboutLater(ParseItems(s, items, path).error, s, |s| - |p.rest|, FailsAtItem(p.rest, items + [p.value], path));
      }
    }
  }

  lemma AboutHere(s: Stream, path: string)
    ensures About(Invalid(DisplayPath(path), if s == [] then None else Some(s[0].1)), s, 0)
  {
  }

  lemma {:induction false} MemberFailureIsThere(s: Stream, members: map<string, Value>,
                                                positions: map<string, Position>, path: string)
    requires ParseMembers(s, members, positions, path).Err?
    ensures About(ParseMembers(s, members, positions, path).error, s, FailsAtMember(s, members, positions, path))
    decreases |s|, 1
  {
    hide AppendPath, DisplayPath, ParseValue, FailsAt;
    if s != [] && IsName(s[0].0) && s[0].0.key.value !in positions {
      var key := s[0].0.key.value;
      var childPath := AppendPath(path, key);
      var e := ParseMembers(s, members, positions, path).error;
      if ParseValue(s[1..], childPath).Err? {
        FailureIsThere(s[1..], childPath);
        AboutLater(e, s, 1, FailsAt(s[1..], childPath));
      } else {
        var p := ParseValue(s[1..], childPath).value;
        Remainder(s[1..], childPath);
        assert p.rest == s[|s| - |p.rest|..];
        MemberFailureIsThere(p.rest, members[key := p.value], positions[key := s[0].1], path);
        AboutLater(e, s, |s| - |p.rest|,
                   FailsAtMember(p.rest, members[key := p.value], positions[key := s[0].1], path));
      }
    }
  }

  // ---------- One turn of the loops ----------

  lemma ItemGoesOn(s: Stream, items: seq<Value>, path: string)
    requires s != [] && !s[0].0.Broken? && !s[0].0.SequenceEnd?
    requires ParseValue(s, AppendPath(path, Decimal(|items|))).Ok?
    ensures var p := ParseValue(s, AppendPath(path, Decimal(|items|))).value;
            && ParseItems(s, items, path) == ParseItems(p.rest, items + [p.value], path)
            && (ParseItems(s, items, path).Err? ==>
                  FailsAtItem(s, items, path) == |s| - |p.rest| + FailsAtItem(p.rest, items + [p.value], path))
  {
    hide ParseValue, AppendPath, DisplayPath, Decimal, FailsAt;
  }

  lemma MemberGoesOn(s: Stream, members: map<string, Value>, positions: map<string, Position>, path: string)
    requires s != [] && IsName(s[0].0) && s[0].0.key.value !in positions
    requires ParseValue(s[1..], AppendPath(path, s[0].0.key.value)).Ok?
    ensures var key := s[0].0.key.value;
            var p := ParseValue(s[1..], AppendPath(path, key)).value;
            var more, places := members[key := p.value], positions[key := s[0].1];
            && ParseMembers(s, members, positions, path) == ParseMembers(p.rest, more, places, path)
            && (ParseMembers(s, members, positions, path).Err? ==>
                  FailsAtMember(s, members, positions, path)
                  == |s| - |p.rest| + FailsAtMember(p.rest, more, places, path))
  {
    hide ParseValue, AppendPath, DisplayPath, FailsAt;
  }

  lemma MemberStops(s: Stream, members: map<string, Value>, positions: map<string, Position>, path: string)
    requires s != [] && IsName(s[0].0) && s[0].0.key.value !in positions
    requires ParseValue(s[1..], AppendPath(path, s[0].0.key.value)).Err?
    ensures var childPath := AppendPath(path, s[0].0.key.value);
            && ParseMembers(s, members, positions, path) == Err(ParseValue(s[1..], childPath).error)
            && FailsAtMember(s, members, positions, path) == 1 + FailsAt(s[1..], childPath)
  {
    hide ParseValue, AppendPath, DisplayPath, FailsAt;
  }

  lemma MemberRefused(s: Stream, members: map<string, Value>, positions: map<string, Position>, path: string)
    requires ParseMembers(s, members, positions, path).Err?
    requires s == [] || !IsName(s[0].0) || s[0].0.key.value in positions
    ensures FailsAtMember(s, members, positions, path) == 0
    ensures ParseMembers(s, members, positions, path).error ==
            if s != [] && IsName(s[0].0) then
              DuplicateKey(DisplayPath(path), s[0].0.key.value, positions[s[0].0.key.value], s[0].1)
            else
              Invalid(DisplayPath(path), if s == [] then None else Some(s[0].1))
    ensures forall t :: s != [] && t != [] && t[0] == s[0] ==>
              ParseMembers(t, members, positions, path) == ParseMembers(s, members, positions, path)
  {
    hide ParseValue, AppendPath, DisplayPath, FailsAt;
  }

  lemma PrefixCut(s: Stream, t: Stream, k: nat, n: nat)
    requires n <= k < |s| && s[..k + 1] <= t
    ensures s[..n] <= t && s[n..][..k - n + 1] <= t[n..]
  {
    assert s[..n] == s[..k + 1][..n];
    assert s[n..][..k - n + 1] == s[..k + 1][n..];
  }

  // ---------- What comes after does not matter ----------

  lemma SameValue(s: Stream, t: Stream, path: string)
    requires ParseValue(s, path).Ok? && s[..|s| - |ParseValue(s, path).value.rest|] <= t
    ensures var p := ParseValue(s, path).value;
            ParseValue(t, path) == Ok(Parsed(p.value, t[|s| - |p.rest|..]))
  {
    hide ParseValue, AppendPath, DisplayPath, Emit, ValueOf, FirstRepeat, WellFormed;
    var p := ParseValue(s, path).value;
    var d := ParsedIsEmission(s, path);
    var n := |Emit(d)|;
    assert s[..n] == Emit(d) && n == |s| - |p.rest|;
    ParsesEmission(d, p.rest, path);
    ParsesEmission(d, t[n..], path);
    assert t == Emit(d) + t[n..];
  }

  lemma {:induction false} SameFailure(s: Stream, t: Stream, path: string)
    requires ParseValue(s, path).Err? && FailsAt(s, path) < |s| && s[..FailsAt(s, path) + 1] <= t
    ensures ParseValue(t, path) == ParseValue(s, path)
    decreases |s|, 0
  {
    hide AppendPath, DisplayPath, Decimal;
    var k := FailsAt(s, path);
    assert s[0] == s[..k + 1][0] == t[0];
    assert s[..k + 1][1..] == s[1..][..k];
    if s[0].0 == SequenceStart(true) {
      SameItemFailure(s[1..], t[1..], [], path);
    } else if s[0].0 == MappingStart(true) {
      SameMemberFailure(s[1..], t[1..], map[], map[], path);
    }
  }

  lemma {:induction false} SameItemFailure(s: Stream, t: Stream, items: seq<Value>, path: string)
    requires ParseItems(s, items, path).Err?
    requires FailsAtItem(s, items, path) < |s| && s[..FailsAtItem(s, items, path) + 1] <= t
    ensures ParseItems(t, items, path) == ParseItems(s, items, path)
    decreases |s|, 1
  {
    hide AppendPath, DisplayPath, Decimal, ParseValue, FailsAt;
    var k := FailsAtItem(s, items, path);
    assert s[0] == s[..k + 1][0] == t[0];
    var childPath := AppendPath(path, Decimal(|items|));
    if !s[0].0.Broken? && ParseValue(s, childPath).Err? {
      SameFailure(s, t, childPath);
    } else if !s[0].0.Broken? {
      SameItemLater(s, t, items, path);
    }
  }

  lemma {:induction false} SameItemLater(s: Stream, t: Stream, items: seq<Value>, path: string)
    requires ParseItems(s, items, path).Err? && s != [] && !s[0].0.Broken? && !s[0].0.SequenceEnd?
    requires ParseValue(s, AppendPath(path, Decimal(|items|))).Ok?
    requires FailsAtItem(s, items, path) < |s| && s[..FailsAtItem(s, items, path) + 1] <= t && t[0] == s[0]
    ensures ParseItems(t, items, path) == ParseItems(s, items, path)
    decreases |s|, 0
  {
    hide AppendPath, DisplayPath, Decimal, ParseValue, FailsAt, ParseItems, FailsAtItem;
    var k, childPath := FailsAtItem(s, items, path), AppendPath(path, Decimal(|items|));
    var p := ParseValue(s, childPath).value;
    var n := |s| - |p.rest|;
    ItemGoesOn(s, items, path);
    Remainder(s, childPath);
    PrefixCut(s, t, k, n);
    SameValue(s, t, childPath);
    ItemGoesOn(t, items, path);
    SameItemFailure(p.rest, t[n..], items + [p.value], path);
  }

  lemma {:induction false} SameMemberFailure(s: Stream, t: Stream, members: map<string, Value>,
                                             positions: map<string, Position>, path: string)
    requires ParseMembers(s, members, positions, path).Err?
    requires var k := FailsAtMember(s, members, positions, path); k < |s| && s[..k + 1] <= t
    ensures ParseMembers(t, members, positions, path) == ParseMembers(s, members, positions, path)
    decreases |s|, 1
  {
    hide AppendPath, DisplayPath, ParseValue, FailsAt, ParseMembers, FailsAtMember;
    var k := FailsAtMember(s, members, positions, path);
    assert s[0] == s[..k + 1][0] == t[0];
    if !IsName(s[0].0) || s[0].0.key.value in positions {
      MemberRefused(s, members, positions, path);
    } else {
      var childPath := AppendPath(path, s[0].0.key.value);
      if ParseValue(s[1..], childPath).Err? {
        MemberStops(s, members, positions, path);
        PrefixCut(s, t, k, 1);
        SameFailure(s[1..], t[1..], childPath);
        MemberStops(t, members, positions, path);
      } else {
        SameMemberLater(s, t, members, positions, path);
      }
    }
  }

  lemma {:induction false} SameMemberLater(s: Stream, t: Stream, members: map<string, Value>,
                                           positions: map<string, Position>, path: string)
    requires ParseMembers(s, members, positions, path).Err?
    requires s != [] && IsName(s[0].0) && s[0].0.key.value !in positions
    requires ParseValue(s[1..], AppendPath(path, s[0].0.key.value)).Ok?
    requires var k := FailsAtMember(s, members, positions, path); k < |s| && s[..k + 1] <= t && t[0] == s[0]
    ensures ParseMembers(t, members, positions, path) == ParseMembers(s, members, positions, path)
    decreases |s|, 0
  {
    hide AppendPath, DisplayPath, ParseValue, FailsAt, ParseMembers, FailsAtMember;
    var k, key := FailsAtMember(s, members, positions, path), s[0].0.key.value;
    var childPath := AppendPath(path, key);
    var p := ParseValue(s[1..], childPath).value;
    var n := |s| - |p.rest|;
    MemberGoesOn(s, members, positions, path);
    Remainder(s[1..], childPath);
    PrefixCut(s, t, k, 1);
    PrefixCut(s[1..], t[1..], k - 1, n - 1);
    SameValue(s[1..], t[1..], childPath);
    MemberGoesOn(t, members, positions, path);
    SameMemberFailure(p.rest, t[1..][n - 1..], members[key := p.value], positions[key := s[0].1], path);
  }

  /** No document starts with the events up to an invalid one. */
  lemma NothingContinues(s: Stream, path: string, d: Document, suffix: Stream)
    requires ParseValue(s, path).Err? && ParseValue(s, path).error.Invalid? && FailsAt(s, path) < |s|
    requires WellFormed(d)
    ensures !(s[..FailsAt(s, path) + 1] <= Emit(d) + suffix)
  {
    hide ParseValue, FailsAt, Emit, WellFormed, ValueOf, FirstRepeat;
    if s[..FailsAt(s, path) + 1] <= Emit(d) + suffix {
      SameFailure(s, Emit(d) + suffix, path);
      ParsesEmission(d, suffix, path);
      RepeatIsDuplicate(d, path);
    }
  }

  lemma {:induction false} RepeatIsDuplicate(d: Document, path: string)
    requires WellFormed(d)
    ensures FirstRepeat(d, path).Some? ==> FirstRepeat(d, path).value.DuplicateKey?
    decreases d, 0
  {
    match d
    case DocScalar(_, _) =>
    case DocList(_, items, _) => ItemRepeatIsDuplicate(items, 0, path);
    case DocRecord(_, members, _) => MemberRepeatIsDuplicate(members, 0, path);
  }

  lemma {:induction false} ItemRepeatIsDuplicate(items: seq<Document>, from: nat, path: string)
    requires from <= |items| && forall i :: 0 <= i < |items| ==> WellFormed(items[i])
    ensures FirstRepeatInItems(items, from, path).Some? ==> FirstRepeatInItems(items, from, path).value.DuplicateKey?
    decreases items, |items| - from
  {
    if from < |items| {
      RepeatIsDuplicate(items[from], AppendPath(path, Decimal(from)));
      ItemRepeatIsDuplicate(items, from + 1, path);
    }
  }

  lemma {:induction false} MemberRepeatIsDuplicate(members: seq<Member>, from: nat, path: string)
    requires from <= |members| && forall i :: 0 <= i < |members| ==> WellFormedMember(members[i])
    ensures FirstRepeatInMembers(members, from, path).Some? ==>
            FirstRepeatInMembers(members, from, path).value.DuplicateKey?
    decreases members, |members| - from
  {
    if from < |members| {
      RepeatBelowIsDuplicate(members[from], path);
      MemberRepeatIsDuplicate(members, from + 1, path);
    }
  }

  lemma {:induction false} RepeatBelowIsDuplicate(m: Member, path: string)
    requires WellFormedMember(m)
    ensures FirstRepeatBelow(m, path).Some? ==> FirstRepeatBelow(m, path).value.DuplicateKey?
    decreases m, 0
  {
    match m
    case Member(name, _, value) => RepeatIsDuplicate(value, AppendPath(path, name.key.value));
  }

  // ---------- What came before can be continued ----------

  const NOWHERE: Position := Position(0, 0)

  /** Events that finish a document whatever has been opened: closing brackets, and some scalar where one is due. */
  ghost predicate Filling(e: Event, filler: Event) {
    e == filler || e == SequenceEnd || e == MappingEnd
  }

  /** The first n events of s are those of the whole, which then only finishes what they open. */
  ghost predicate FinishedBy(s: Stream, n: nat, whole: Stream, filler: Event) {
    && n <= |s| && n <= |whole| && s[..n] == whole[..n]
    && forall i :: n <= i < |whole| ==> Filling(whole[i].0, filler)
  }

  lemma FinishedInside(s: Stream, n: nat, a: Stream, inner: Stream, z: Stream, filler: Event)
    requires a <= s && FinishedBy(s[|a|..], n, inner, filler)
    requires forall i :: 0 <= i < |z| ==> Filling(z[i].0, filler)
    ensures FinishedBy(s, |a| + n, a + inner + z, filler)
  {
    var whole := a + inner + z;
    assert s[..|a| + n] == a + s[|a|..][..n];
    assert whole[..|a| + n] == a + inner[..n];
    forall i | |a| + n <= i < |whole| ensures Filling(whole[i].0, filler) {
      if i < |a| + |inner| {
        assert whole[i] == inner[i - |a|];
      } else {
        assert whole[i] == z[i - |a| - |inner|];
      }
    }
  }

  /** The repeated name itself is still an event of a document; an invalid event is not. */
  ghost function Accepted(e: Error, k: nat): nat {
    if e.DuplicateKey? then k + 1 else k
  }

  /** What the finished document has to show for the error: the repeat, or nothing yet. */
  ghost function Shown(e: Error): Option<Error> {
    if e.DuplicateKey? then Some(e) else None
  }

  ghost predicate IsScalar(e: Event) {
    e.Leaf? && e.atom.Some?
  }

  /** The pointer of the innermost value that event k belongs to. Names and closing brackets belong to the container. */
  ghost function PlaceIn(d: Document, k: nat, path: string): string
    decreases d, 0
  {
    match d
    case DocScalar(_, _) => path
    case DocList(_, items, _) => if k == 0 then path else PlaceInItems(items, 0, k - 1, path)
    case DocRecord(_, members, _) => if k == 0 then path else PlaceInMembers(members, 0, k - 1, path)
  }

  ghost function PlaceInItems(items: seq<Document>, from: nat, k: nat, path: string): string
    decreases items, |items| - from
  {
    if from >= |items| then path
    else if k < |Emit(items[from])| then PlaceIn(items[from], k, AppendPath(path, Decimal(from)))
    else PlaceInItems(items, from + 1, k - |Emit(items[from])|, path)
  }

  ghost function PlaceInMembers(members: seq<Member>, from: nat, k: nat, path: string): string
    decreases members, |members| - from
  {
    if from >= |members| || k == 0 then path
    else if k <= |Emit(members[from].value)| then PlaceBelow(members[from], k - 1, path)
    else PlaceInMembers(members, from + 1, k - 1 - |Emit(members[from].value)|, path)
  }

  ghost function PlaceBelow(m: Member, k: nat, path: string): string
    decreases m, 0
  {
    match m
    case Member(name, _, value) => if IsName(name) then PlaceIn(value, k, AppendPath(path, name.key.value)) else path
  }

  /** An invalid event is reported at this place. */
  ghost predicate ReportedAt(e: Error, place: string) {
    e.Invalid? ==> e.path == DisplayPath(place)
  }

  lemma {:induction false} FinishValue(s: Stream, path: string, filler: Event) returns (d: Document)
    requires ParseValue(s, path).Err? && IsScalar(filler)
    ensures WellFormed(d) && FirstRepeat(d, path) == Shown(ParseValue(s, path).error)
    ensures var n := Accepted(ParseValue(s, path).error, FailsAt(s, path));
            n < |Emit(d)| && FinishedBy(s, n, Emit(d), filler)
    ensures ReportedAt(ParseValue(s, path).error, PlaceIn(d, FailsAt(s, path), path))
    decreases |s|, 0
  {
    hide AppendPath, DisplayPath, Decimal, ParseItems, ParseMembers, FailsAtItem, FailsAtMember, FinishedBy;
    hide FirstRepeatInItems, FirstRepeatInMembers, PlaceInItems, PlaceInMembers, EmitItems, EmitMembers;
    if s != [] && s[0].0 == SequenceStart(true) {
      var items := FinishItems(s[1..], [], path, filler);
      d := DocList(s[0].1, items, NOWHERE);
      assert items[0..] == items;
      FinishedAfterOpening(s, Accepted(ParseValue(s, path).error, FailsAtItem(s[1..], [], path)),
                           EmitItems(items), (SequenceEnd, NOWHERE), filler);
    } else if s != [] && s[0].0 == MappingStart(true) {
      var members := FinishMembers(s[1..], [], path, filler);
      d := DocRecord(s[0].1, members, NOWHERE);
      assert members[0..] == members;
      FinishedAfterOpening(s, Accepted(ParseValue(s, path).error, FailsAtMember(s[1..], map[], map[], path)),
                           EmitMembers(members), (MappingEnd, NOWHERE), filler);
    } else {
      d := DocScalar(filler, NOWHERE);
      FinishedAtOnce(s, [(filler, NOWHERE)], filler);
    }
  }

  lemma FinishedAfterOpening(s: Stream, n: nat, inner: Stream, close: (Event, Position), filler: Event)
    requires s != [] && FinishedBy(s[1..], n, inner + [close], filler)
    ensures FinishedBy(s, 1 + n, [s[0]] + inner + [close], filler)
  {
    hide FinishedBy;
    assert [s[0]] <= s;
    FinishedInside(s, n, [s[0]], inner + [close], [], filler);
    assert [s[0]] + (inner + [close]) + [] == [s[0]] + inner + [close];
  }

  lemma FinishedAtOnce(s: Stream, whole: Stream, filler: Event)
    requires forall i :: 0 <= i < |whole| ==> Filling(whole[i].0, filler)
    ensures FinishedBy(s, 0, whole, filler)
  {
  }

  lemma {:induction false} FinishItems(s: Stream, so: seq<Document>, path: string, filler: Event)
    returns (items: seq<Document>)
    requires (forall i :: 0 <= i < |so| ==> WellFormed(so[i])) && IsScalar(filler)
    requires ParseItems(s, ItemsOf(so), path).Err?
    ensures so <= items && forall i :: 0 <= i < |items| ==> WellFormed(items[i])
    ensures FirstRepeatInItems(items, |so|, path) == Shown(ParseItems(s, ItemsOf(so), path).error)
    ensures var n := Accepted(ParseItems(s, ItemsOf(so), path).error, FailsAtItem(s, ItemsOf(so), path));
            var whole := EmitItems(items[|so|..]) + [(SequenceEnd, NOWHERE)];
            n < |whole| && FinishedBy(s, n, whole, filler)
    ensures ReportedAt(ParseItems(s, ItemsOf(so), path).error,
                       PlaceInItems(items, |so|, FailsAtItem(s, ItemsOf(so), path), path))
    decreases |s|, 1
  {
    hide PlaceIn;
    hide AppendPath, DisplayPath, Decimal, ParseValue, FailsAt, FinishedBy, Emit, FirstRepeat, WellFormed, ValueOf;
    var close := [(SequenceEnd, NOWHERE)];
    if s == [] || s[0].0.Broken? {
      items := so;
      assert items[|so|..] == [] && EmitItems([]) + close == close;
      FinishedAtOnce(s, close, filler);
    } else {
      var childPath := AppendPath(path, Decimal(|so|));
      if ParseValue(s, childPath).Err? {
        var d := FinishValue(s, childPath, filler);
        items := so + [d];
        assert items[|so|..] == [d] && items[|so|..][1..] == [];
        assert items[|so|] == d && FirstRepeatInItems(items, |so| + 1, path).None?;
        FinishedInside(s, Accepted(ParseValue(s, childPath).error, FailsAt(s, childPath)), [], Emit(d), close, filler);
        assert EmitItems([d]) + close == [] + Emit(d) + close;
      } else {
        items := FinishItemsLater(s, so, path, filler);
      }
    }
  }

  lemma {:induction false} FinishItemsLater(s: Stream, so: seq<Document>, path: string, filler: Event)
    returns (items: seq<Document>)
    requires (forall i :: 0 <= i < |so| ==> WellFormed(so[i])) && IsScalar(filler)
    requires ParseItems(s, ItemsOf(so), path).Err? && s != [] && !s[0].0.Broken? && !s[0].0.SequenceEnd?
    requires ParseValue(s, AppendPath(path, Decimal(|so|))).Ok?
    ensures so <= items && forall i :: 0 <= i < |items| ==> WellFormed(items[i])
    ensures FirstRepeatInItems(items, |so|, path) == Shown(ParseItems(s, ItemsOf(so), path).error)
    ensures var n := Accepted(ParseItems(s, ItemsOf(so), path).error, FailsAtItem(s, ItemsOf(so), path));
            var whole := EmitItems(items[|so|..]) + [(SequenceEnd, NOWHERE)];
            n < |whole| && FinishedBy(s, n, whole, filler)
    ensures ReportedAt(ParseItems(s, ItemsOf(so), path).error,
                       PlaceInItems(items, |so|, FailsAtItem(s, ItemsOf(so), path), path))
    decreases |s|, 0
  {
    hide PlaceIn, ParseItems, FailsAtItem, EmitItems, FirstRepeatInItems, PlaceInItems;
    hide AppendPath, DisplayPath, Decimal, ParseValue, FailsAt, FinishedBy, Emit, FirstRepeat, WellFormed, ValueOf;
    var childPath := AppendPath(path, Decimal(|so|));
    var p := ParseValue(s, childPath).value;
    var d := ParsedIsEmission(s, childPath);
    var more := so + [d];
    ItemGoesOn(s, ItemsOf(so), path);
    assert ItemsOf(more) == ItemsOf(so) + [ValueOf(d)];
    items := FinishItems(p.rest, more, path, filler);
    assert items[|so|] == d && Emit(d) <= s && s[|Emit(d)|..] == p.rest;
    ItemsUnfold(items, |so|, FailsAtItem(s, ItemsOf(so), path), path);
    var close := [(SequenceEnd, NOWHERE)];
    var n := Accepted(ParseItems(s, ItemsOf(so), path).error, FailsAtItem(p.rest, ItemsOf(more), path));
    FinishedInside(s, n, Emit(d), EmitItems(items[|more|..]) + close, [], filler);
    assert EmitItems(items[|so|..]) + close == Emit(d) + (EmitItems(items[|more|..]) + close) + [];
  }

  lemma ItemsUnfold(items: seq<Document>, from: nat, k: nat, path: string)
    requires from < |items| && forall i :: 0 <= i < |items| ==> WellFormed(items[i])
    requires FirstRepeat(items[from], AppendPath(path, Decimal(from))).None? && k >= |Emit(items[from])|
    ensures EmitItems(items[from..]) == Emit(items[from]) + EmitItems(items[from + 1..])
    ensures FirstRepeatInItems(items, from, path) == FirstRepeatInItems(items, from + 1, path)
    ensures PlaceInItems(items, from, k, path) == PlaceInItems(items, from + 1, k - |Emit(items[from])|, path)
  {
    hide Emit, FirstRepeat, WellFormed, AppendPath, Decimal, PlaceIn;
    assert items[from..][1..] == items[from + 1..];
  }

  lemma {:induction false} FinishMembers(s: Stream, so: seq<Member>, path: string, filler: Event)
    returns (members: seq<Member>)
    requires (forall i :: 0 <= i < |so| ==> WellFormedMember(so[i])) && DistinctNames(so) && IsScalar(filler)
    requires ParseMembers(s, MembersOf(so), PositionsOf(so), path).Err?
    ensures so <= members && forall i :: 0 <= i < |members| ==> WellFormedMember(members[i])
    ensures FirstRepeatInMembers(members, |so|, path)
         == Shown(ParseMembers(s, MembersOf(so), PositionsOf(so), path).error)
    ensures var n := Accepted(ParseMembers(s, MembersOf(so), PositionsOf(so), path).error,
                              FailsAtMember(s, MembersOf(so), PositionsOf(so), path));
            var whole := EmitMembers(members[|so|..]) + [(MappingEnd, NOWHERE)];
            n < |whole| && FinishedBy(s, n, whole, filler)
    ensures ReportedAt(ParseMembers(s, MembersOf(so), PositionsOf(so), path).error,
                       PlaceInMembers(members, |so|, FailsAtMember(s, MembersOf(so), PositionsOf(so), path), path))
    decreases |s|, 1
  {
    hide PlaceIn;
    hide AppendPath, DisplayPath, ParseValue, FailsAt, FinishedBy, Emit, FirstRepeat, WellFormed, ValueOf, EmitMembers;
    hide MembersOf, PositionsOf, DistinctNames, FirstNamed, FirstRepeatBelow;
    hide ParseMembers, FailsAtMember, FirstRepeatInMembers, PlaceBelow;
    var close := [(MappingEnd, NOWHERE)];
    NoMembersEmitted();
    if s == [] || !IsName(s[0].0) {
      members := so;
      MemberRefused(s, MembersOf(so), PositionsOf(so), path);
      NoMoreRepeats(so, path);
      assert members[|so|..] == [] && [] + close == close;
      FinishedAtOnce(s, close, filler);
    } else {
      var (event, position) := s[0];
      var key := event.key.value;
      var childPath := AppendPath(path, key);
      var e := ParseMembers(s, MembersOf(so), PositionsOf(so), path).error;
      if key in PositionsOf(so) {
        MemberRefused(s, MembersOf(so), PositionsOf(so), path);
        members := FinishRepeat(s, so, path, filler);
      } else if ParseValue(s[1..], childPath).Err? {
        MemberStops(s, MembersOf(so), PositionsOf(so), path);
        var d := FinishValue(s[1..], childPath, filler);
        var m := Member(event, position, d);
        members := so + [m];
        LastMember(so, m, path);
        BelowIsValue(m, FailsAt(s[1..], childPath), path);
        assert members[|so|..] == [m] && [s[0]] <= s;
        EmitsOneMember(m);
        FinishedInside(s, Accepted(e, FailsAt(s[1..], childPath)), [s[0]], Emit(d), close, filler);
      } else {
        members := FinishLater(s, so, path, filler);
      }
    }
  }

  /** One more member, whose name is new. */
  lemma LastMember(so: seq<Member>, m: Member, path: string)
    requires (forall i :: 0 <= i < |so| ==> WellFormedMember(so[i])) && DistinctNames(so) && WellFormedMember(m)
    requires m.name.key.value !in PositionsOf(so)
    ensures forall i :: 0 <= i <= |so| ==> WellFormedMember((so + [m])[i])
    ensures FirstRepeatInMembers(so + [m], |so|, path) == FirstRepeatBelow(m, path)
  {
    hide PositionsOf, DistinctNames, FirstNamed, FirstRepeatBelow;
    var members := so + [m];
    PositionTable(so, m);
    assert members[..|so|] == so && members[|so|] == m;
    assert FirstRepeatInMembers(members, |so| + 1, path).None?;
  }

  lemma BelowIsValue(m: Member, k: nat, path: string)
    requires WellFormedMember(m)
    ensures FirstRepeatBelow(m, path) == FirstRepeat(m.value, AppendPath(path, m.name.key.value))
    ensures PlaceBelow(m, k, path) == PlaceIn(m.value, k, AppendPath(path, m.name.key.value))
  {
    hide FirstRepeat, AppendPath, PlaceIn;
  }

  lemma NoMoreRepeats(members: seq<Member>, path: string)
    requires forall i :: 0 <= i < |members| ==> WellFormedMember(members[i])
    ensures FirstRepeatInMembers(members, |members|, path).None?
  {
  }

  lemma EmitsOneMember(m: Member)
    ensures EmitMembers([m]) == [(m.name, m.at)] + Emit(m.value)
  {
    hide Emit;
    assert [m][1..] == [] && EmitMembers([]) == [];
  }

  lemma FinishRepeat(s: Stream, so: seq<Member>, path: string, filler: Event) returns (members: seq<Member>)
    requires (forall i :: 0 <= i < |so| ==> WellFormedMember(so[i])) && DistinctNames(so) && IsScalar(filler)
    requires s != [] && IsName(s[0].0) && s[0].0.key.value in PositionsOf(so)
    ensures so <= members && forall i :: 0 <= i < |members| ==> WellFormedMember(members[i])
    ensures FirstRepeatInMembers(members, |so|, path)
         == Some(DuplicateKey(DisplayPath(path), s[0].0.key.value, PositionsOf(so)[s[0].0.key.value], s[0].1))
    ensures var whole := EmitMembers(members[|so|..]) + [(MappingEnd, NOWHERE)];
            1 < |whole| && FinishedBy(s, 1, whole, filler)
  {
    hide DisplayPath, PositionsOf, DistinctNames, FirstNamed;
    var m := Member(s[0].0, s[0].1, DocScalar(filler, NOWHERE));
    members := so + [m];
    PositionTable(so, m);
    assert members[..|so|] == so && members[|so|] == m && members[|so|..] == [m];
    EmitsOneMember(m);
    assert Emit(m.value) == [(filler, NOWHERE)];
  }

  lemma {:induction false} FinishLater(s: Stream, so: seq<Member>, path: string, filler: Event)
    returns (members: seq<Member>)
    requires (forall i :: 0 <= i < |so| ==> WellFormedMember(so[i])) && DistinctNames(so) && IsScalar(filler)
    requires ParseMembers(s, MembersOf(so), PositionsOf(so), path).Err?
    requires s != [] && IsName(s[0].0) && s[0].0.key.value !in PositionsOf(so)
    requires ParseValue(s[1..], AppendPath(path, s[0].0.key.value)).Ok?
    ensures so <= members && forall i :: 0 <= i < |members| ==> WellFormedMember(members[i])
    ensures FirstRepeatInMembers(members, |so|, path)
         == Shown(ParseMembers(s, MembersOf(so), PositionsOf(so), path).error)
    ensures var n := Accepted(ParseMembers(s, MembersOf(so), PositionsOf(so), path).error,
                              FailsAtMember(s, MembersOf(so), PositionsOf(so), path));
            var whole := EmitMembers(members[|so|..]) + [(MappingEnd, NOWHERE)];
            n < |whole| && FinishedBy(s, n, whole, filler)
    ensures ReportedAt(ParseMembers(s, MembersOf(so), PositionsOf(so), path).error,
                       PlaceInMembers(members, |so|, FailsAtMember(s, MembersOf(so), PositionsOf(so), path), path))
    decreases |s|, 0
  {
    hide PlaceIn;
    hide AppendPath, DisplayPath, ParseValue, FailsAt, FinishedBy, Emit, FirstRepeat, WellFormed, ValueOf, EmitMembers;
    hide MembersOf, PositionsOf, DistinctNames, FirstNamed, FirstRepeatInMembers, ParseMembers, FailsAtMember;
    hide PlaceInMembers, FirstRepeatBelow;
    MemberGoesOn(s, MembersOf(so), PositionsOf(so), path);
    var (event, position) := s[0];
    var key := event.key.value;
    var childPath := AppendPath(path, key);
    var p := ParseValue(s[1..], childPath).value;
    var d := ParsedIsEmission(s[1..], childPath);
    var m := Member(event, position, d);
    var more := so + [m];
    assert more[..|so|] == so && more[..|more|] == more;
    TablesGrow(more, |so|);
    PositionTable(so, m);
    NamesStayDistinct(more, |so|);
    members := FinishMembers(p.rest, more, path, filler);
    assert members[|so|] == m && members[..|so|] == so;
    BelowIsValue(m, 0, path);
    RepeatsAfter(members, |so|, FailsAtMember(s, MembersOf(so), PositionsOf(so), path), path);
    var close := [(MappingEnd, NOWHERE)];
    var a := [s[0]] + Emit(d);
    assert s == [s[0]] + s[1..] && a <= s && s[|a|..] == p.rest;
    var n := Accepted(ParseMembers(s, MembersOf(so), PositionsOf(so), path).error,
                      FailsAtMember(p.rest, MembersOf(more), PositionsOf(more), path));
    FinishedInside(s, n, a, EmitMembers(members[|more|..]) + close, [], filler);
    EmissionUnfolds(members, |so|, close);
    var whole := EmitMembers(members[|so|..]) + close;
    assert whole == [whole[0]] + whole[1..] == a + (EmitMembers(members[|more|..]) + close) + [];
  }

  lemma RepeatsAfter(members: seq<Member>, from: nat, k: nat, path: string)
    requires from < |members| && forall i :: 0 <= i < |members| ==> WellFormedMember(members[i])
    requires FirstNamed(members[..from], members[from]) == from && FirstRepeatBelow(members[from], path).None?
    requires k > |Emit(members[from].value)|
    ensures FirstRepeatInMembers(members, from, path) == FirstRepeatInMembers(members, from + 1, path)
    ensures PlaceInMembers(members, from, k, path)
         == PlaceInMembers(members, from + 1, k - 1 - |Emit(members[from].value)|, path)
  {
    hide FirstNamed, FirstRepeatBelow, Emit, PlaceBelow;
  }

  // ---------- Whole sources ----------

  function MarkEvents(marks: seq<Mark>): Stream {
    seq(|marks|, i requires 0 <= i < |marks| => (Other(marks[i]), NOWHERE))
  }

  lemma {:induction false} MarksErrorAt(s: Stream, marks: seq<Mark>) returns (j: nat)
    requires MarksError(s, marks).Some?
    ensures j < |marks| && j <= |s| && MarksError(s, marks) == Some(Invalid(DisplayPath(""),
                                                    if j == |s| then None else Some(s[j].1)))
    ensures (forall i :: 0 <= i < j ==> s[i].0 == Other(marks[i])) && (j < |s| ==> s[j].0 != Other(marks[j]))
    decreases |marks|
  {
    hide DisplayPath;
    if s == [] || s[0].0 != Other(marks[0]) {
      j := 0;
    } else {
      var rest := MarksErrorAt(s[1..], marks[1..]);
      j := rest + 1;
      forall i | 0 <= i < j ensures s[i].0 == Other(marks[i]) {
        assert i > 0 ==> s[i] == s[1..][i - 1] && marks[i] == marks[1..][i - 1];
      }
    }
  }

  ghost predicate AreMarks(s: Stream, marks: seq<Mark>) {
    |s| == |marks| && forall i :: 0 <= i < |s| ==> s[i].0 == Other(marks[i])
  }

  lemma HoldsBetween(a: Stream, before: seq<Mark>, d: Document, z: Stream, after: seq<Mark>)
    requires AreMarks(a, before) && AreMarks(z, after) && WellFormed(d)
    ensures Holds(a + Emit(d) + z, before, d, after)
  {
    hide Emit, WellFormed;
    var s := a + Emit(d) + z;
    assert s[|a|..|a| + |Emit(d)|] == Emit(d);
  }

  /** The pointer of event k of a source; the marks belong to the whole. */
  ghost function SourcePlace(d: Document, k: nat, start: nat): string {
    if start <= k < start + |Emit(d)| then PlaceIn(d, k - start, "") else ""
  }

  /** Events that can end a source. */
  ghost predicate Ending(t: Stream, filler: Event, before: seq<Mark>, after: seq<Mark>) {
    forall i :: 0 <= i < |t| ==>
      || Filling(t[i].0, filler) || (exists j :: 0 <= j < |before| && t[i].0 == Other(before[j]))
      || (exists j :: 0 <= j < |after| && t[i].0 == Other(after[j]))
  }

  ghost predicate NeverHolds(s: Stream, before: seq<Mark>, after: seq<Mark>) {
    forall t, d :: !Finishes(s, t, before, d, after)
  }

  ghost predicate Finishes(s: Stream, t: Stream, before: seq<Mark>, d: Document, after: seq<Mark>) {
    Holds(s + t, before, d, after)
  }

  /** The error is about event k: the source can be finished before it, as d, and not with it. */
  ghost predicate FirstFailure(s: Stream, before: seq<Mark>, after: seq<Mark>, e: Error, k: nat, d: Document, t: Stream)
  {
    && About(e, s, k) && Accepted(e, k) <= |s|
    && Finishes(s[..Accepted(e, k)], t, before, d, after)
    && FirstRepeat(d, "") == Shown(e) && ReportedAt(e, SourcePlace(d, k, |before|))
    && (e.Invalid? && k < |s| ==> NeverHolds(s[..k + 1], before, after))
  }

  lemma SourceFailure(s: Stream, before: seq<Mark>, after: seq<Mark>, filler: Event)
    returns (k: nat, d: Document, t: Stream)
    requires SourceOutcome(s, before, after).Err? && IsScalar(filler)
    ensures FirstFailure(s, before, after, SourceOutcome(s, before, after).error, k, d, t)
    ensures Ending(t, filler, before, after)
  {
    hide MarksError, ParseValue, FirstFailure, Ending;
    if MarksError(s, before).Some? {
      k, d, t := FailsBefore(s, before, after, filler);
    } else if ParseValue(s[|before|..], "").Err? {
      k, d, t := FailsInside(s, before, after, filler);
    } else {
      k, d, t := FailsAfter(s, before, after, filler);
    }
  }

  lemma FailsBefore(s: Stream, before: seq<Mark>, after: seq<Mark>, filler: Event)
    returns (k: nat, d: Document, t: Stream)
    requires MarksError(s, before).Some? && IsScalar(filler)
    ensures FirstFailure(s, before, after, MarksError(s, before).value, k, d, t) && Ending(t, filler, before, after)
  {
    hide MarksError, DisplayPath, Finishes, NeverHolds, Ending;
    k := MarksErrorAt(s, before);
    d := DocScalar(filler, NOWHERE);
    t := MarkEvents(before[k..]) + Emit(d) + MarkEvents(after);
    FinishedFromMark(s, before, after, k, filler);
    if k < |s| {
      BeforeNeverHolds(s, before, after, k);
    }
  }

  lemma FinishedFromMark(s: Stream, before: seq<Mark>, after: seq<Mark>, k: nat, filler: Event)
    requires k <= |s| && k <= |before| && IsScalar(filler) && forall i :: 0 <= i < k ==> s[i].0 == Other(before[i])
    ensures var d := DocScalar(filler, NOWHERE);
            var t := MarkEvents(before[k..]) + Emit(d) + MarkEvents(after);
            Finishes(s[..k], t, before, d, after) && Ending(t, filler, before, after)
  {
    hide Holds, Ending;
    var d := DocScalar(filler, NOWHERE);
    var t := MarkEvents(before[k..]) + Emit(d) + MarkEvents(after);
    var a := s[..k] + MarkEvents(before[k..]);
    HoldsBetween(a, before, d, MarkEvents(after), after);
    assert s[..k] + t == a + Emit(d) + MarkEvents(after);
    EndsAfterMarks(before, k, filler, after);
    assert Emit(d) == [(filler, NOWHERE)];
  }

  lemma EndsAfterMarks(before: seq<Mark>, k: nat, filler: Event, after: seq<Mark>)
    requires k <= |before|
    ensures Ending(MarkEvents(before[k..]) + [(filler, NOWHERE)] + MarkEvents(after), filler, before, after)
  {
    var m, t := |before| - k, MarkEvents(before[k..]) + [(filler, NOWHERE)] + MarkEvents(after);
    forall i | 0 <= i < |t|
      ensures || Filling(t[i].0, filler) || (exists j :: 0 <= j < |before| && t[i].0 == Other(before[j]))
              || (exists j :: 0 <= j < |after| && t[i].0 == Other(after[j]))
    {
      if i < m {
        assert t[i].0 == Other(before[k + i]);
      } else if i > m {
        assert t[i].0 == Other(after[i - m - 1]);
      }
    }
  }

  lemma BeforeNeverHolds(s: Stream, before: seq<Mark>, after: seq<Mark>, k: nat)
    requires k < |s| && k < |before| && s[k].0 != Other(before[k])
    ensures NeverHolds(s[..k + 1], before, after)
  {
    hide Emit, WellFormed;
    var start := s[..k + 1];
    forall u, other ensures !Finishes(start, u, before, other, after) {
      assert (start + u)[k] == s[k];
    }
  }

  lemma FailsInside(s: Stream, before: seq<Mark>, after: seq<Mark>, filler: Event)
    returns (k: nat, d: Document, t: Stream)
    requires MarksError(s, before).None? && ParseValue(s[|before|..], "").Err? && IsScalar(filler)
    ensures FirstFailure(s, before, after, ParseValue(s[|before|..], "").error, k, d, t)
    ensures Ending(t, filler, before, after)
  {
    hide MarksError, ParseValue, FailsAt, Emit, WellFormed, FirstRepeat, PlaceIn, Finishes, NeverHolds;
    var b, body := |before|, s[|before|..];
    var e, at := ParseValue(body, "").error, FailsAt(body, "");
    var n := Accepted(e, at);
    FailureIsThere(body, "");
    AboutLater(e, s, b, at);
    k := b + at;
    d := FinishValue(body, "", filler);
    t := Emit(d)[n..] + MarkEvents(after);
    FinishedSource(s, before, after, n, d, filler);
    EndsWithMarks(Emit(d), n, filler, before, after);
    if e.Invalid? && k < |s| {
      InsideNeverHolds(s, before, after);
    }
  }

  lemma FinishedSource(s: Stream, before: seq<Mark>, after: seq<Mark>, n: nat, d: Document, filler: Event)
    requires StartsWithMarks(s, before) && WellFormed(d) && FinishedBy(s[|before|..], n, Emit(d), filler)
    ensures Finishes(s[..|before| + n], Emit(d)[n..] + MarkEvents(after), before, d, after)
  {
    hide Emit, WellFormed, Holds;
    var b := |before|;
    var t := Emit(d)[n..] + MarkEvents(after);
    HoldsBetween(s[..b], before, d, MarkEvents(after), after);
    assert s[..b + n] == s[..b] + s[b..][..n];
    assert Emit(d) == Emit(d)[..n] + Emit(d)[n..];
    assert s[..b + n] + t == s[..b] + Emit(d) + MarkEvents(after);
  }

  lemma EndsWithMarks(whole: Stream, n: nat, filler: Event, before: seq<Mark>, after: seq<Mark>)
    requires n <= |whole| && forall i :: n <= i < |whole| ==> Filling(whole[i].0, filler)
    ensures Ending(whole[n..] + MarkEvents(after), filler, before, after)
  {
    var t := whole[n..] + MarkEvents(after);
    forall i | 0 <= i < |t|
      ensures Filling(t[i].0, filler) || (exists j :: 0 <= j < |after| && t[i].0 == Other(after[j]))
    {
      if i < |whole| - n {
        assert t[i] == whole[n + i];
      } else {
        assert t[i].0 == Other(after[i - (|whole| - n)]);
      }
    }
  }

  lemma InsideNeverHolds(s: Stream, before: seq<Mark>, after: seq<Mark>)
    requires |before| <= |s| && ParseValue(s[|before|..], "").Err? && ParseValue(s[|before|..], "").error.Invalid?
    requires FailsAt(s[|before|..], "") < |s| - |before|
    ensures NeverHolds(s[..|before| + FailsAt(s[|before|..], "") + 1], before, after)
  {
    hide ParseValue, FailsAt, Emit, WellFormed;
    var b, at := |before|, FailsAt(s[|before|..], "");
    var start := s[..b + at + 1];
    forall u, other ensures !Finishes(start, u, before, other, after) {
      var whole := start + u;
      if Holds(whole, before, other, after) {
        HoldsInOrder(whole, before, other, after);
        var rest := whole[b..];
        assert rest == Emit(other) + rest[|Emit(other)|..];
        assert s[b..][..at + 1] == rest[..at + 1];
        NothingContinues(s[b..], "", other, rest[|Emit(other)|..]);
      }
    }
  }

  lemma FailsAfter(s: Stream, before: seq<Mark>, after: seq<Mark>, filler: Event)
    returns (k: nat, d: Document, t: Stream)
    requires MarksError(s, before).None? && ParseValue(s[|before|..], "").Ok?
    requires MarksError(ParseValue(s[|before|..], "").value.rest, after).Some?
    ensures FirstFailure(s, before, after, MarksError(ParseValue(s[|before|..], "").value.rest, after).value, k, d, t)
    ensures Ending(t, filler, before, after)
  {
    hide MarksError, ParseValue, Emit, WellFormed, FirstRepeat, DisplayPath, PlaceIn, Finishes, NeverHolds;
    var b, body := |before|, s[|before|..];
    var rest := ParseValue(body, "").value.rest;
    var j := MarksErrorAt(rest, after);
    d := ParsedIsEmission(body, "");
    k := b + |Emit(d)| + j;
    t := MarkEvents(after[j..]);
    assert body[|Emit(d)|..] == rest && s[b + |Emit(d)|..] == rest;
    assert j < |rest| ==> rest[j] == s[k];
    FinishedMarks(s, before, after, d, rest, j);
    forall i | 0 <= i < |t| ensures t[i].0 == Other(after[j + i]) {
    }
    if k < |s| {
      AfterNeverHolds(s, before, after, d, j);
    }
  }

  lemma FinishedMarks(s: Stream, before: seq<Mark>, after: seq<Mark>, d: Document, rest: Stream, j: nat)
    requires StartsWithMarks(s, before) && WellFormed(d) && s[|before|..] == Emit(d) + rest
    requires j <= |after| && j <= |rest| && forall i :: 0 <= i < j ==> rest[i].0 == Other(after[i])
    ensures Finishes(s[..|before| + |Emit(d)| + j], MarkEvents(after[j..]), before, d, after)
  {
    hide Emit, WellFormed, Holds;
    var b, k, t := |before|, |before| + |Emit(d)| + j, MarkEvents(after[j..]);
    var z := rest[..j] + t;
    HoldsBetween(s[..b], before, d, z, after);
    assert s == s[..b] + (Emit(d) + rest);
    assert s[..k] == s[..b] + Emit(d) + rest[..j];
    assert s[..k] + t == s[..b] + Emit(d) + z;
  }

  lemma AfterNeverHolds(s: Stream, before: seq<Mark>, after: seq<Mark>, d: Document, j: nat)
    requires |before| <= |s| && WellFormed(d) && FirstRepeat(d, "").None? && Emit(d) <= s[|before|..]
    requires j < |after| && |before| + |Emit(d)| + j < |s| && s[|before| + |Emit(d)| + j].0 != Other(after[j])
    ensures NeverHolds(s[..|before| + |Emit(d)| + j + 1], before, after)
  {
    hide Emit, WellFormed;
    var b, n := |before|, |Emit(d)|;
    var start := s[..b + n + j + 1];
    forall u, other ensures !Finishes(start, u, before, other, after) {
      var whole := start + u;
      assert whole[b + n + j] == s[b + n + j];
      assert whole[b..][..n] == s[b..][..n] == Emit(d);
      if Holds(whole, before, other, after) {
        SameLength(whole, before, after, d, other);
      }
    }
  }

  /** The end of a value does not depend on what is taken for it. */
  lemma SameLength(whole: Stream, before: seq<Mark>, after: seq<Mark>, d: Document, other: Document)
    requires |before| <= |whole| && WellFormed(d) && FirstRepeat(d, "").None? && Emit(d) <= whole[|before|..]
    requires Holds(whole, before, other, after)
    ensures |Emit(other)| == |Emit(d)|
  {
    hide Emit, WellFormed, FirstRepeat, ParseValue, ValueOf;
    HoldsInOrder(whole, before, other, after);
    var rest := whole[|before|..];
    assert rest == Emit(d) + rest[|Emit(d)|..] && rest == Emit(other) + rest[|Emit(other)|..];
    ParsesEmission(d, rest[|Emit(d)|..], "");
    ParsesEmission(other, rest[|Emit(other)|..], "");
  }
}
