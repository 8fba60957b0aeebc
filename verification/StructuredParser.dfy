/**
 The structured fence parser with duplicate-key detection. JSON tokens and YAML events are first read
 one by one as the Events below (module StructuredText); the recursive descent over them is the same for both.

 Main results: ParsesEmission and ParsedIsEmission, the parser accepts exactly the event sequences of
 documents in which no object repeats a key, and reports the first repeated key in document order.
 */
module StructuredParser {
  import opened Wrappers
  import opened InstancePath

  datatype Position = Position(line: nat, column: nat)

  datatype Atom = Null | Bool(value: bool) | Number(literal: string) | Text(text: string)

  datatype Value = Scalar(atom: Atom) | Array(items: seq<Value>) | Object(members: map<string, Value>)

  datatype Error =
    | DuplicateKey(instancePath: string, key: string, first: Position, repeated: Position)
    | Invalid(path: string, position: Option<Position>)

  datatype Result<+T> = Ok(value: T) | Err(error: Error)

  // ---------- Events ----------

  /** What one token can serve as: a scalar value and a member name, or a bracket; Other serves as nothing. */
  datatype Event =
    | Leaf(atom: Option<Atom>, key: Option<string>)
    | SequenceStart(plain: bool) | SequenceEnd | MappingStart(plain: bool) | MappingEnd
    | Other(mark: Mark)
    | Broken   // the tokenizer's error, at its position

  datatype Mark = Eof | StreamStart | DocumentStart | DocumentEnd | StreamEnd | Misplaced

  type Stream = seq<(Event, Position)>

  // ---------- The recursive descent ----------

  datatype Parsed = Parsed(value: Value, rest: Stream)

  function ParseValue(s: Stream, path: string): (r: Result<Parsed>)
    ensures r.Ok? ==> |r.value.rest| < |s|
    decreases |s|, 0
  {
    if s == [] then
      Err(Invalid(DisplayPath(path), None))
    else
      var (event, position) := s[0];
      match event
      case Leaf(Some(atom), _) => Ok(Parsed(Scalar(atom), s[1..]))
      case SequenceStart(true) => ParseItems(s[1..], [], path)
      case MappingStart(true) => ParseMembers(s[1..], map[], map[], path)
      case _ => Err(Invalid(DisplayPath(path), Some(position)))
  }

  function ParseItems(s: Stream, items: seq<Value>, path: string): (r: Result<Parsed>)
    ensures r.Ok? ==> |r.value.rest| < |s|
    decreases |s|, 1
  {
    if s == [] then
      Err(Invalid(DisplayPath(path), None))
    else if s[0].0.Broken? then
      Err(Invalid(DisplayPath(path), Some(s[0].1)))
    else if s[0].0.SequenceEnd? then
      Ok(Parsed(Array(items), s[1..]))
    else
      match ParseValue(s, AppendPath(path, Decimal(|items|)))
      case Err(e) => Err(e)
      case Ok(p) => ParseItems(p.rest, items + [p.value], path)
  }

  function ParseMembers(s: Stream, members: map<string, Value>, positions: map<string, Position>,
                        path: string): (r: Result<Parsed>)
    ensures r.Ok? ==> |r.value.rest| < |s|
    decreases |s|, 1
  {
    if s == [] then
      Err(Invalid(DisplayPath(path), None))
    else
      var (event, position) := s[0];
      if event.MappingEnd? then
        Ok(Parsed(Object(members), s[1..]))
      else if !event.Leaf? || event.key.None? then
        Err(Invalid(DisplayPath(path), Some(position)))
      else
        var key := event.key.value;
        if key in positions then
          Err(DuplicateKey(DisplayPath(path), key, positions[key], position))
        else
          match ParseValue(s[1..], AppendPath(path, key))
          case Err(e) => Err(e)
          case Ok(p) => ParseMembers(p.rest, members[key := p.value], positions[key := position], path)
  }

  // ---------- The code: a cursor and loops ----------

  class Cursor {
    var rest: Stream

    constructor (stream: Stream)
      ensures rest == stream
    {
      rest := stream;
    }

    /** next_json and next_yaml: a tokenizer error carries its own position. */
    method Next(path: string) returns (r: Result<(Event, Position)>)
      modifies this
      ensures r.Ok? <==> old(rest) != [] && !old(rest)[0].0.Broken?
      ensures r.Ok? ==> r.value == old(rest)[0] && rest == old(rest)[1..]
      ensures r.Err? ==>
        rest == old(rest) && r.error == Invalid(DisplayPath(path), if rest == [] then None else Some(rest[0].1))
    {
      if rest == [] {
        return Err(Invalid(DisplayPath(path), None));
      }
      if rest[0].0.Broken? {
        return Err(Invalid(DisplayPath(path), Some(rest[0].1)));
      }
      r := Ok(rest[0]);
      rest := rest[1..];
    }

    /** The outcome of a parse of `before`: its value and what is left, or its error. */
    ghost predicate Follows(r: Result<Value>, outcome: Result<Parsed>)
      reads this
    {
      match outcome
      case Ok(p) => r == Ok(p.value) && rest == p.rest
      case Err(e) => r == Err(e)
    }

    method Value(event: Event, position: Position, path: string) returns (r: Result<Value>)
      modifies this
      ensures Follows(r, ParseValue([(event, position)] + old(rest), path))
      ensures r.Ok? ==> |rest| <= old(|rest|)
      decreases |rest|, 1
    {
      ghost var s := [(event, position)] + rest;
      assert s[0] == (event, position) && s[1..] == rest;
      match event
      case Leaf(Some(atom), _) => r := Ok(Scalar(atom));
      case SequenceStart(true) => r := Sequence(path);
      case MappingStart(true) => r := Mapping(path);
      case _ => r := Err(Invalid(DisplayPath(path), Some(position)));
    }

    method Sequence(path: string) returns (r: Result<Value>)
      modifies this
      ensures Follows(r, ParseItems(old(rest), [], path))
      ensures r.Ok? ==> |rest| < old(|rest|)
      decreases |rest|, 0
    {
      var items: seq<Value> := [];
      while true
        invariant |rest| <= old(|rest|)
        invariant ParseItems(old(rest), [], path) == ParseItems(rest, items, path)
        decreases |rest|
      {
        ghost var s := rest;
        var next := Next(path);
        if next.Err? {
          return Err(next.error);
        }
        var (event, position) := next.value;
        if event.SequenceEnd? {
          return Ok(Array(items));
        }
        assert s == [(event, position)] + rest;
        var item := Value(event, position, AppendPath(path, Decimal(|items|)));
        if item.Err? {
          return Err(item.error);
        }
        items := items + [item.value];
      }
    }

    method Mapping(path: string) returns (r: Result<Value>)
      modifies this
      ensures Follows(r, ParseMembers(old(rest), map[], map[], path))
      ensures r.Ok? ==> |rest| < old(|rest|)
      decreases |rest|, 0
    {
      var members: map<string, Value> := map[];
      var positions: map<string, Position> := map[];
      while true
        invariant |rest| <= old(|rest|)
        invariant ParseMembers(old(rest), map[], map[], path) == ParseMembers(rest, members, positions, path)
        decreases |rest|
      {
        ghost var s := rest;
        var next := Next(path);
        if next.Err? {
          return Err(next.error);
        }
        var (event, position) := next.value;
        if event.MappingEnd? {
          return Ok(Object(members));
        }
        if !event.Leaf? || event.key.None? {
          return Err(Invalid(DisplayPath(path), Some(position)));
        }
        var key := event.key.value;
        if key in positions {
          return Err(DuplicateKey(DisplayPath(path), key, positions[key], position));
        }
        positions := positions[key := position];
        var childPath := AppendPath(path, key);
        ghost var t := rest;
        next := Next(childPath);
        if next.Err? {
          return Err(next.error);
        }
        var (valueEvent, valuePosition) := next.value;
        assert t == [(valueEvent, valuePosition)] + rest;
        var value := Value(valueEvent, valuePosition, childPath);
        if value.Err? {
          return Err(value.error);
        }
        members := members[key := value.value];
      }
    }
  }

  // ---------- Documents and their event sequences ----------

  datatype Document =
    | DocScalar(event: Event, at: Position)
    | DocList(open: Position, items: seq<Document>, close: Position)
    | DocRecord(open: Position, members: seq<Member>, close: Position)

  datatype Member = Member(name: Event, at: Position, value: Document)

  predicate IsName(e: Event) {
    e.Leaf? && e.key.Some?
  }

  /** Scalars are scalars and member names are names. Names may repeat. */
  predicate WellFormed(d: Document) {
    match d
    case DocScalar(event, _) => event.Leaf? && event.atom.Some?
    case DocList(_, items, _) => forall i :: 0 <= i < |items| ==> WellFormed(items[i])
    case DocRecord(_, members, _) => forall i :: 0 <= i < |members| ==> WellFormedMember(members[i])
  }

  predicate WellFormedMember(m: Member) {
    match m
    case Member(name, _, value) => IsName(name) && WellFormed(value)
  }

  function Emit(d: Document): (s: Stream)
    ensures s != []
  {
    match d
    case DocScalar(event, at) => [(event, at)]
    case DocList(open, items, close) => [(SequenceStart(true), open)] + EmitItems(items) + [(SequenceEnd, close)]
    case DocRecord(open, members, close) => [(MappingStart(true), open)] + EmitMembers(members) + [(MappingEnd, close)]
  }

  function EmitItems(items: seq<Document>): Stream {
    if items == [] then [] else Emit(items[0]) + EmitItems(items[1..])
  }

  function EmitMembers(members: seq<Member>): Stream {
    if members == [] then [] else EmitMember(members[0]) + EmitMembers(members[1..])
  }

  function EmitMember(m: Member): Stream {
    match m
    case Member(name, at, value) => [(name, at)] + Emit(value)
  }

  function ValueOf(d: Document): Value
    requires WellFormed(d)
  {
    match d
    case DocScalar(event, _) => Scalar(event.atom.value)
    case DocList(_, items, _) => Array(ItemsOf(items))
    case DocRecord(_, members, _) => Object(MembersOf(members))
  }

  function ItemsOf(items: seq<Document>): (values: seq<Value>)
    requires forall i :: 0 <= i < |items| ==> WellFormed(items[i])
    ensures |values| == |items|
  {
    seq(|items|, i requires 0 <= i < |items| => ValueOf(items[i]))
  }

  function MembersOf(members: seq<Member>): map<string, Value>
    requires forall i :: 0 <= i < |members| ==> WellFormedMember(members[i])
  {
    if members == [] then
      map[]
    else
      var last := members[|members| - 1];
      assert WellFormedMember(last);
      MembersOf(members[..|members| - 1])[last.name.key.value := MemberValue(last)]
  }

  function MemberValue(m: Member): Value
    requires WellFormedMember(m)
  {
    match m
    case Member(_, _, value) => ValueOf(value)
  }

  // ---------- Repeated keys ----------

  predicate SameName(a: Member, b: Member) {
    IsName(a.name) && IsName(b.name) && a.name.key == b.name.key
  }

  /** Some object at some depth repeats a key. */
  ghost predicate RepeatsKey(d: Document) {
    match d
    case DocScalar(_, _) => false
    case DocList(_, items, _) => exists i :: 0 <= i < |items| && RepeatsKey(items[i])
    case DocRecord(_, members, _) =>
      || (exists i, j :: 0 <= i < j < |members| && SameName(members[i], members[j]))
      || (exists i :: 0 <= i < |members| && RepeatsKeyBelow(members[i]))
  }

  ghost predicate RepeatsKeyBelow(m: Member) {
    match m
    case Member(_, _, value) => RepeatsKey(value)
  }

  /** The first of the members with this name. */
  function FirstNamed(members: seq<Member>, m: Member): (i: nat)
    ensures i <= |members|
    ensures i < |members| ==> SameName(members[i], m)
    ensures forall j :: 0 <= j < i ==> !SameName(members[j], m)
  {
    if members == [] || SameName(members[0], m) then 0 else 1 + FirstNamed(members[1..], m)
  }

  /** The first repeated key in document order: a name comes before its value, members and items from left to right. */
  function FirstRepeat(d: Document, path: string): Option<Error>
    requires WellFormed(d)
    decreases d, 0
  {
    match d
    case DocScalar(_, _) => None
    case DocList(_, items, _) => FirstRepeatInItems(items, 0, path)
    case DocRecord(_, members, _) => FirstRepeatInMembers(members, 0, path)
  }

  function FirstRepeatInItems(items: seq<Document>, from: nat, path: string): Option<Error>
    requires from <= |items| && forall i :: 0 <= i < |items| ==> WellFormed(items[i])
    decreases items, |items| - from
  {
    if from == |items| then
      None
    else
      match FirstRepeat(items[from], AppendPath(path, Decimal(from)))
      case Some(e) => Some(e)
      case None => FirstRepeatInItems(items, from + 1, path)
  }

  function FirstRepeatInMembers(members: seq<Member>, from: nat, path: string): Option<Error>
    requires from <= |members| && forall i :: 0 <= i < |members| ==> WellFormedMember(members[i])
    decreases members, |members| - from
  {
    if from == |members| then
      None
    else
      var m := members[from];
      assert WellFormedMember(m);
      var first := FirstNamed(members[..from], m);
      if first < from then
        Some(DuplicateKey(DisplayPath(path), m.name.key.value, members[first].at, m.at))
      else
        match FirstRepeatBelow(m, path)
        case Some(e) => Some(e)
        case None => FirstRepeatInMembers(members, from + 1, path)
  }

  function FirstRepeatBelow(m: Member, path: string): Option<Error>
    requires WellFormedMember(m)
    decreases m, 0
  {
    match m
    case Member(name, _, value) => FirstRepeat(value, AppendPath(path, name.key.value))
  }

  lemma {:induction false} RepeatIsFound(d: Document, path: string)
    requires WellFormed(d)
    ensures FirstRepeat(d, path).Some? <==> RepeatsKey(d)
    decreases d, 0
  {
    match d
    case DocScalar(_, _) =>
    case DocList(_, items, _) =>
      ItemRepeatIsFound(items, 0, path);
    case DocRecord(_, members, _) =>
      MemberRepeatIsFound(members, 0, path);
  }

  lemma {:induction false} ItemRepeatIsFound(items: seq<Document>, from: nat, path: string)
    requires from <= |items| && forall i :: 0 <= i < |items| ==> WellFormed(items[i])
    ensures FirstRepeatInItems(items, from, path).Some? <==> exists i :: from <= i < |items| && RepeatsKey(items[i])
    decreases items, |items| - from
  {
    if from < |items| {
      RepeatIsFound(items[from], AppendPath(path, Decimal(from)));
      ItemRepeatIsFound(items, from + 1, path);
    }
  }

  lemma {:induction false} MemberRepeatIsFound(members: seq<Member>, from: nat, path: string)
    requires from <= |members| && forall i :: 0 <= i < |members| ==> WellFormedMember(members[i])
    ensures FirstRepeatInMembers(members, from, path).Some? <==>
            || (exists i, j :: 0 <= i < j < |members| && from <= j && SameName(members[i], members[j]))
            || (exists i :: from <= i < |members| && RepeatsKeyBelow(members[i]))
    decreases members, |members| - from
  {
    if from < |members| {
      var m := members[from];
      var first := FirstNamed(members[..from], m);
      RepeatBelowIsFound(m, path);
      MemberRepeatIsFound(members, from + 1, path);
      if first < from {
        assert members[..from][first] == members[first];
        assert SameName(members[first], members[from]);
      } else {
        forall i | 0 <= i < from ensures !SameName(members[i], m) {
          assert members[..from][i] == members[i];
        }
      }
    }
  }

  lemma {:induction false} RepeatBelowIsFound(m: Member, path: string)
    requires WellFormedMember(m)
    ensures FirstRepeatBelow(m, path).Some? <==> RepeatsKeyBelow(m)
    decreases m, 0
  {
    match m
    case Member(name, _, value) => RepeatIsFound(value, AppendPath(path, name.key.value));
  }

  // ---------- Parsing inverts emission ----------

  function Outcome(repeat: Option<Error>, value: Value, rest: Stream): Result<Parsed> {
    if repeat.Some? then Err(repeat.value) else Ok(Parsed(value, rest))
  }

  lemma EmitStartsValue(d: Document)
    requires WellFormed(d)
    ensures !Emit(d)[0].0.SequenceEnd? && !Emit(d)[0].0.MappingEnd? && !Emit(d)[0].0.Broken?
  {
  }

  /** On the events of a document, whatever follows them, the parser returns its value or its first repeated key. */
  lemma {:induction false} ParsesEmission(d: Document, suffix: Stream, path: string)
    requires WellFormed(d)
    ensures ParseValue(Emit(d) + suffix, path) == Outcome(FirstRepeat(d, path), ValueOf(d), suffix)
    decreases d, 0
  {
    var s := Emit(d) + suffix;
    match d
    case DocScalar(event, at) =>
      assert s[0] == (event, at) && s[1..] == suffix;
    case DocList(open, items, close) =>
      var tail := [(SequenceEnd, close)] + suffix;
      assert s[0] == (SequenceStart(true), open) && s[1..] == EmitItems(items[0..]) + tail && tail[1..] == suffix;
      ParsesItems(items, 0, tail, path);
      assert ItemsOf(items[..0]) == [];
    case DocRecord(open, members, close) =>
      var tail := [(MappingEnd, close)] + suffix;
      assert s[0] == (MappingStart(true), open) && s[1..] == EmitMembers(members[0..]) + tail && tail[1..] == suffix;
      ParsesMembers(members, 0, tail, path);
  }

  lemma {:induction false} ParsesItems(items: seq<Document>, from: nat, tail: Stream, path: string)
    requires from <= |items| && forall i :: 0 <= i < |items| ==> WellFormed(items[i])
    requires tail != [] && tail[0].0.SequenceEnd?
    ensures ParseItems(EmitItems(items[from..]) + tail, ItemsOf(items[..from]), path)
         == Outcome(FirstRepeatInItems(items, from, path), Array(ItemsOf(items)), tail[1..])
    decreases items, |items| - from
  {
    if from == |items| {
      assert EmitItems(items[from..]) + tail == tail && items[..from] == items;
    } else {
      var rest := EmitItems(items[from + 1..]) + tail;
      var s := EmitItems(items[from..]) + tail;
      assert items[from..][1..] == items[from + 1..];
      assert s == Emit(items[from]) + rest;
      EmitStartsValue(items[from]);
      ParsesEmission(items[from], rest, AppendPath(path, Decimal(from)));
      assert ItemsOf(items[..from + 1]) == ItemsOf(items[..from]) + [ValueOf(items[from])];
      ParsesItems(items, from + 1, tail, path);
    }
  }

  function PositionsOf(members: seq<Member>): map<string, Position>
    requires forall i :: 0 <= i < |members| ==> WellFormedMember(members[i])
  {
    if members == [] then
      map[]
    else
      var last := members[|members| - 1];
      assert WellFormedMember(last);
      PositionsOf(members[..|members| - 1])[last.name.key.value := last.at]
  }

  predicate DistinctNames(members: seq<Member>) {
    forall i, j :: 0 <= i < j < |members| ==> !SameName(members[i], members[j])
  }

  /** With distinct names, the position table knows exactly the members so far. */
  lemma {:induction false} PositionTable(members: seq<Member>, m: Member)
    requires (forall i :: 0 <= i < |members| ==> WellFormedMember(members[i])) && DistinctNames(members)
    requires WellFormedMember(m)
    ensures m.name.key.value in PositionsOf(members) <==> FirstNamed(members, m) < |members|
    ensures FirstNamed(members, m) < |members| ==>
      PositionsOf(members)[m.name.key.value] == members[FirstNamed(members, m)].at
  {
    if members != [] {
      var front, last := members[..|members| - 1], members[|members| - 1];
      assert WellFormedMember(last);
      PositionTable(front, m);
      var first := FirstNamed(members, m);
      var inFront := FirstNamed(front, m);
      if inFront < |front| {
        assert front[inFront] == members[inFront] && !SameName(members[inFront], last);
        assert first == inFront;
      } else {
        forall j | 0 <= j < |front| ensures !SameName(members[j], m) {
          assert front[j] == members[j];
        }
      }
    }
  }

  /** The tables after one more member. */
  lemma TablesGrow(members: seq<Member>, from: nat)
    requires from < |members| && forall i :: 0 <= i < |members| ==> WellFormedMember(members[i])
    ensures var m := members[from];
            && WellFormedMember(m)
            && MembersOf(members[..from + 1]) == MembersOf(members[..from])[m.name.key.value := MemberValue(m)]
            && PositionsOf(members[..from + 1]) == PositionsOf(members[..from])[m.name.key.value := m.at]
  {
    assert members[..from + 1][..from] == members[..from];
    assert WellFormedMember(members[from]);
  }

  lemma EmissionUnfolds(members: seq<Member>, from: nat, tail: Stream)
    requires from < |members|
    ensures var m := members[from];
            var s := EmitMembers(members[from..]) + tail;
            s != [] && s[0] == (m.name, m.at) && s[1..] == Emit(m.value) + (EmitMembers(members[from + 1..]) + tail)
  {
    hide Emit;
    var m := members[from];
    assert members[from..][1..] == members[from + 1..];
    assert EmitMember(m) == [(m.name, m.at)] + Emit(m.value);
  }

  lemma NoMembersEmitted()
    ensures EmitMembers([]) == []
  {
  }

  lemma NamesStayDistinct(members: seq<Member>, from: nat)
    requires from < |members| && DistinctNames(members[..from]) && FirstNamed(members[..from], members[from]) == from
    ensures DistinctNames(members[..from + 1])
  {
    var more := members[..from + 1];
    forall i, j | 0 <= i < j < |more| ensures !SameName(more[i], more[j]) {
      assert more[i] == members[..from][i];
      if j < from {
        assert more[j] == members[..from][j];
      }
    }
  }

  lemma {:induction false} ParsesMembers(members: seq<Member>, from: nat, tail: Stream, path: string)
    requires from <= |members| && (forall i :: 0 <= i < |members| ==> WellFormedMember(members[i]))
    requires DistinctNames(members[..from])
    requires tail != [] && tail[0].0.MappingEnd?
    ensures ParseMembers(EmitMembers(members[from..]) + tail, MembersOf(members[..from]), PositionsOf(members[..from]),
                         path)
         == Outcome(FirstRepeatInMembers(members, from, path), Object(MembersOf(members)), tail[1..])
    decreases members, |members| - from
  {
    hide Emit, ParseValue, MembersOf, PositionsOf, DistinctNames, FirstRepeatBelow, AppendPath, DisplayPath;
    if from == |members| {
      assert EmitMembers(members[from..]) + tail == tail && members[..from] == members;
    } else {
      var m := members[from];
      TablesGrow(members, from);
      EmissionUnfolds(members, from, tail);
      PositionTable(members[..from], m);
      if FirstNamed(members[..from], m) == from {
        ParsesMemberValue(m, EmitMembers(members[from + 1..]) + tail, path);
        NamesStayDistinct(members, from);
        ParsesMembers(members, from + 1, tail, path);
      }
    }
  }

  lemma {:induction false} ParsesMemberValue(m: Member, rest: Stream, path: string)
    requires WellFormedMember(m)
    ensures ParseValue(Emit(m.value) + rest, AppendPath(path, m.name.key.value)) ==
      Outcome(FirstRepeatBelow(m, path), MemberValue(m), rest)
    decreases m, 0
  {
    match m
    case Member(name, _, value) => ParsesEmission(value, rest, AppendPath(path, name.key.value));
  }

  // ---------- Whatever parses is an emission ----------

  /**
   An accepted stream starts with the events of a document without repeated keys, and the parser returns its value.
   */
  lemma {:induction false} ParsedIsEmission(s: Stream, path: string) returns (d: Document)
    requires ParseValue(s, path).Ok?
    ensures WellFormed(d) && FirstRepeat(d, path).None?
    ensures s == Emit(d) + ParseValue(s, path).value.rest
    ensures ParseValue(s, path).value.value == ValueOf(d)
    decreases |s|, 0
  {
    hide AppendPath, DisplayPath;
    var (event, position) := s[0];
    match event
    case Leaf(_, _) =>
      d := DocScalar(event, position);
    case SequenceStart(_) =>
      var items, close := ParsedItems(s[1..], [], path);
      d := DocList(position, items, close);
    case MappingStart(_) =>
      var members, close := ParsedMembers(s[1..], [], path);
      d := DocRecord(position, members, close);
  }

  lemma {:induction false} ParsedItems(s: Stream, so: seq<Document>, path: string)
    returns (items: seq<Document>, close: Position)
    requires forall i :: 0 <= i < |so| ==> WellFormed(so[i])
    requires ParseItems(s, ItemsOf(so), path).Ok?
    ensures so <= items && forall i :: 0 <= i < |items| ==> WellFormed(items[i])
    ensures FirstRepeatInItems(items, |so|, path).None?
    ensures s == EmitItems(items[|so|..]) + [(SequenceEnd, close)] + ParseItems(s, ItemsOf(so), path).value.rest
    ensures ParseItems(s, ItemsOf(so), path).value.value == Array(ItemsOf(items))
    decreases |s|, 1
  {
    hide AppendPath, DisplayPath, Decimal;
    if s[0].0.SequenceEnd? {
      items, close := so, s[0].1;
      assert EmitItems(items[|so|..]) == [];
    } else {
      var childPath := AppendPath(path, Decimal(|so|));
      var d := ParsedIsEmission(s, childPath);
      var more := so + [d];
      assert ItemsOf(more) == ItemsOf(so) + [ValueOf(d)];
      items, close := ParsedItems(ParseValue(s, childPath).value.rest, more, path);
      assert items[|so|..] == [d] + items[|more|..];
      assert items[|so|..][1..] == items[|more|..];
    }
  }

  lemma {:induction false} ParsedMembers(s: Stream, so: seq<Member>, path: string)
    returns (members: seq<Member>, close: Position)
    requires (forall i :: 0 <= i < |so| ==> WellFormedMember(so[i])) && DistinctNames(so)
    requires ParseMembers(s, MembersOf(so), PositionsOf(so), path).Ok?
    ensures so <= members && forall i :: 0 <= i < |members| ==> WellFormedMember(members[i])
    ensures FirstRepeatInMembers(members, |so|, path).None?
    ensures s == EmitMembers(members[|so|..]) + [(MappingEnd, close)]
                 + ParseMembers(s, MembersOf(so), PositionsOf(so), path).value.rest
    ensures ParseMembers(s, MembersOf(so), PositionsOf(so), path).value.value == Object(MembersOf(members))
    decreases |s|, 1
  {
    hide AppendPath, DisplayPath, MembersOf, PositionsOf, DistinctNames, Emit, EmitMembers, ParseValue, ParseMembers;
    hide WellFormed, ValueOf, FirstRepeat, FirstNamed;
    NoMembersEmitted();
    MembersUnfold(s, MembersOf(so), PositionsOf(so), path);
    var (event, position) := s[0];
    if event.MappingEnd? {
      members, close := so, position;
      assert members[|so|..] == [];
      assert s == [(MappingEnd, close)] + s[1..];
    } else {
      var key := event.key.value;
      var childPath := AppendPath(path, key);
      var d := ParsedIsEmission(s[1..], childPath);
      var m := Member(event, position, d);
      var more := so + [m];
      assert more[..|so|] == so && more[..|more|] == more;
      TablesGrow(more, |so|);
      PositionTable(so, m);
      NamesStayDistinct(more, |so|);
      var rest := ParseValue(s[1..], childPath).value.rest;
      members, close := ParsedMembers(rest, more, path);
      assert members[..|so|] == so;
      var tail := [(MappingEnd, close)] + ParseMembers(s, MembersOf(so), PositionsOf(so), path).value.rest;
      assert rest == EmitMembers(members[|so| + 1..]) + tail;
      MembersJoin(s, members, |so|, tail, rest);
    }
  }

  /** One turn of a successful member loop. */
  lemma MembersUnfold(s: Stream, members: map<string, Value>, positions: map<string, Position>, path: string)
    requires ParseMembers(s, members, positions, path).Ok?
    ensures s != []
    ensures s[0].0.MappingEnd? ==> ParseMembers(s, members, positions, path) == Ok(Parsed(Object(members), s[1..]))
    ensures !s[0].0.MappingEnd? ==>
      && s[0].0.Leaf? && s[0].0.key.Some? && s[0].0.key.value !in positions
      && var key := s[0].0.key.value;
         var value := ParseValue(s[1..], AppendPath(path, key));
      && value.Ok?
      && ParseMembers(s, members, positions, path) ==
         ParseMembers(value.value.rest, members[key := value.value.value], positions[key := s[0].1], path)
  {
    hide ParseValue, AppendPath, DisplayPath;
  }

  lemma MembersJoin(s: Stream, members: seq<Member>, n: nat, tail: Stream, rest: Stream)
    requires n < |members| && s != [] && s[0] == (members[n].name, members[n].at)
    requires s[1..] == Emit(members[n].value) + rest && rest == EmitMembers(members[n + 1..]) + tail
    ensures s == EmitMembers(members[n..]) + tail
  {
    hide Emit, EmitMembers;
    EmissionUnfolds(members, n, tail);
    var whole := EmitMembers(members[n..]) + tail;
    assert whole == [whole[0]] + whole[1..] && s == [s[0]] + s[1..];
  }

  // ---------- Whole sources ----------

  function DocumentOutcome(d: Document): Result<Value>
    requires WellFormed(d)
  {
    if FirstRepeat(d, "").Some? then Err(FirstRepeat(d, "").value) else Ok(ValueOf(d))
  }

  /** The stream is: marks before, the events of the document, marks after, and then anything. */
  ghost predicate Holds(s: Stream, before: seq<Mark>, d: Document, after: seq<Mark>) {
    && WellFormed(d) && |before| + |Emit(d)| + |after| <= |s|
    && (forall i :: 0 <= i < |before| ==> s[i].0 == Other(before[i]))
    && s[|before|..|before| + |Emit(d)|] == Emit(d)
    && (forall i :: 0 <= i < |after| ==> s[|before| + |Emit(d)| + i].0 == Other(after[i]))
  }

  /** What is wrong with the marks at the start of a stream, if anything. */
  function MarksError(s: Stream, marks: seq<Mark>): (error: Option<Error>)
    ensures error.None? <==> StartsWithMarks(s, marks)
    decreases |marks|
  {
    if marks == [] then None
    else if s == [] then Some(Invalid(DisplayPath(""), None))
    else if s[0].0 != Other(marks[0]) then Some(Invalid(DisplayPath(""), Some(s[0].1)))
    else
      assert forall i :: 0 < i < |marks| && i < |s| ==> s[i] == s[1..][i - 1] && marks[i] == marks[1..][i - 1];
      MarksError(s[1..], marks[1..])
  }

  /** Marks, one value, marks; the first error otherwise. */
  function SourceOutcome(s: Stream, before: seq<Mark>, after: seq<Mark>): Result<Value> {
    match MarksError(s, before)
    case Some(e) => Err(e)
    case None =>
      match ParseValue(s[|before|..], "")
      case Err(e) => Err(e)
      case Ok(p) =>
        match MarksError(p.rest, after)
        case Some(e) => Err(e)
        case None => Ok(p.value)
  }

  /** Reads one mark or fails. */
  method Expect(c: Cursor, mark: Mark) returns (error: Option<Error>)
    modifies c
    ensures error.None? <==> old(c.rest) != [] && old(c.rest)[0].0 == Other(mark)
    ensures error.None? ==> c.rest == old(c.rest)[1..]
    ensures error.Some? ==>
      error.value == Invalid(DisplayPath(""), if old(c.rest) == [] then None else Some(old(c.rest)[0].1))
  {
    var next := c.Next("");
    if next.Err? {
      return Some(next.error);
    }
    if next.value.0 != Other(mark) {
      return Some(Invalid(DisplayPath(""), Some(next.value.1)));
    }
    error := None;
  }

  predicate StartsWithMarks(s: Stream, marks: seq<Mark>) {
    |marks| <= |s| && forall i :: 0 <= i < |marks| ==> s[i].0 == Other(marks[i])
  }

  method ExpectAll(c: Cursor, marks: seq<Mark>) returns (error: Option<Error>)
    modifies c
    ensures error == MarksError(old(c.rest), marks)
    ensures error.None? ==> c.rest == old(c.rest)[|marks|..]
  {
    ghost var s := c.rest;
    for i := 0 to |marks|
      invariant i <= |s| && c.rest == s[i..] && MarksError(s, marks) == MarksError(s[i..], marks[i..])
    {
      assert i < |s| ==> s[i..][1..] == s[i + 1..];
      assert marks[i..][1..] == marks[i + 1..];
      error := Expect(c, marks[i]);
      if error.Some? {
        return;
      }
    }
    error := None;
  }

  /** The stream seen as the reader sees it: marks, a value, marks. */
  lemma HoldsInOrder(s: Stream, before: seq<Mark>, d: Document, after: seq<Mark>)
    ensures Holds(s, before, d, after) <==>
            && WellFormed(d) && StartsWithMarks(s, before) && Emit(d) <= s[|before|..]
            && StartsWithMarks(s[|before|..][|Emit(d)|..], after)
  {
    hide Emit, WellFormed;
    if |before| <= |s| {
      var body := s[|before|..];
      if |Emit(d)| <= |body| {
        assert s[|before|..|before| + |Emit(d)|] == body[..|Emit(d)|];
        var tail := body[|Emit(d)|..];
        assert forall i :: 0 <= i < |tail| ==> tail[i] == s[|before| + |Emit(d)| + i];
      }
    }
  }

  lemma NothingToParse(s: Stream, path: string)
    requires s == [] || s[0].0.Broken?
    ensures ParseValue(s, path) == Err(Invalid(DisplayPath(path), if s == [] then None else Some(s[0].1)))
  {
  }

  /** The marks before, one value, the marks after. */
  method ParseSource(s: Stream, before: seq<Mark>, after: seq<Mark>) returns (r: Result<Value>)
    ensures forall d :: Holds(s, before, d, after) ==> r == DocumentOutcome(d)
    ensures r.Ok? ==> exists d :: Holds(s, before, d, after) && !RepeatsKey(d) && r.value == ValueOf(d)
    ensures r == SourceOutcome(s, before, after)
  {
    hide ParseValue, MarksError, Emit, ValueOf, FirstRepeat, WellFormed, RepeatsKey, Holds, StartsWithMarks;
    forall d {
      HoldsInOrder(s, before, d, after);
    }
    var c := new Cursor(s);
    var error := ExpectAll(c, before);
    if error.Some? {
      return Err(error.value);
    }
    ghost var body := c.rest;
    forall d | Holds(s, before, d, after)
      ensures body != [] && !body[0].0.Broken?
      ensures ParseValue(body, "") == Outcome(FirstRepeat(d, ""), ValueOf(d), body[|Emit(d)|..])
    {
      EmitStartsValue(d);
      assert body == Emit(d) + body[|Emit(d)|..];
      ParsesEmission(d, body[|Emit(d)|..], "");
    }
    if body == [] || body[0].0.Broken? {
      NothingToParse(body, "");
    }
    var next := c.Next("");
    if next.Err? {
      return Err(next.error);
    }
    assert body == [next.value] + c.rest;
    r := c.Value(next.value.0, next.value.1, "");
    if r.Err? {
      return;
    }
    ghost var found := ParsedIsEmission(body, "");
    RepeatIsFound(found, "");
    assert c.rest == body[|Emit(found)|..];
    error := ExpectAll(c, after);
    if error.Some? {
      return Err(error.value);
    }
    assert Holds(s, before, found, after);
  }
}
