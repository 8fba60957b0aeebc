/**
 The two languages of structured fences, and what their texts mean. A text is a tree of scalars, lists and records
 with the positions of its tokens; names may repeat. A language says how its scalars and brackets are written and
 what its scalars mean, and the token readers of the parser are proved to agree with it.

 Main results: ParseJson and ParseYaml, stated over the tokens of texts.
 */
module StructuredText {
  import opened Wrappers
  import opened StructuredParser
  import opened StructuredErrors
  import opened InstancePath

  // ---------- Texts ----------

  datatype Tree<S> =
    | LeafTree(scalar: S, at: Position)
    | ListTree(open: Position, items: seq<Tree<S>>, close: Position)
    | RecordTree(open: Position, fields: seq<Field<S>>, close: Position)

  datatype Field<S> = Field(name: S, at: Position, value: Tree<S>)

  /** S are the scalars and T the tokens. A scalar may stand for a value, and for a member name. */
  datatype Language<!S, !T> = Language(
    token: S -> T, atom: S -> Option<Atom>, name: S -> Option<string>,
    listOpen: T, listClose: T, recordOpen: T, recordClose: T)

  predicate Legal<S, T>(l: Language<S, T>, t: Tree<S>) {
    match t
    case LeafTree(scalar, _) => l.atom(scalar).Some?
    case ListTree(_, items, _) => forall i :: 0 <= i < |items| ==> Legal(l, items[i])
    case RecordTree(_, fields, _) => forall i :: 0 <= i < |fields| ==> LegalField(l, fields[i])
  }

  predicate LegalField<S, T>(l: Language<S, T>, f: Field<S>) {
    match f
    case Field(name, _, value) => l.name(name).Some? && Legal(l, value)
  }

  function Tokens<S, T>(l: Language<S, T>, t: Tree<S>): seq<(T, Position)> {
    match t
    case LeafTree(scalar, at) => [(l.token(scalar), at)]
    case ListTree(open, items, close) => [(l.listOpen, open)] + TokensOfItems(l, items) + [(l.listClose, close)]
    case RecordTree(open, fields, close) =>
      [(l.recordOpen, open)] + TokensOfFields(l, fields) + [(l.recordClose, close)]
  }

  function TokensOfItems<S, T>(l: Language<S, T>, items: seq<Tree<S>>): seq<(T, Position)> {
    if items == [] then [] else Tokens(l, items[0]) + TokensOfItems(l, items[1..])
  }

  function TokensOfFields<S, T>(l: Language<S, T>, fields: seq<Field<S>>): seq<(T, Position)> {
    if fields == [] then [] else TokensOfField(l, fields[0]) + TokensOfFields(l, fields[1..])
  }

  function TokensOfField<S, T>(l: Language<S, T>, f: Field<S>): seq<(T, Position)> {
    match f
    case Field(name, at, value) => [(l.token(name), at)] + Tokens(l, value)
  }

  function Meaning<S, T>(l: Language<S, T>, t: Tree<S>): Value
    requires Legal(l, t)
  {
    match t
    case LeafTree(scalar, _) => Scalar(l.atom(scalar).value)
    case ListTree(_, items, _) => Array(seq(|items|, i requires 0 <= i < |items| => Meaning(l, items[i])))
    case RecordTree(_, fields, _) => Object(MeaningOfFields(l, fields))
  }

  function MeaningOfFields<S, T>(l: Language<S, T>, fields: seq<Field<S>>): map<string, Value>
    requires forall i :: 0 <= i < |fields| ==> LegalField(l, fields[i])
  {
    if fields == [] then
      map[]
    else
      var last := fields[|fields| - 1];
      assert LegalField(l, last);
      MeaningOfFields(l, fields[..|fields| - 1])[l.name(last.name).value := MeaningOfField(l, last)]
  }

  function MeaningOfField<S, T>(l: Language<S, T>, f: Field<S>): Value
    requires LegalField(l, f)
  {
    match f
    case Field(_, _, value) => Meaning(l, value)
  }

  /** Some record at some depth has two fields of one name. */
  ghost predicate RepeatsName<S, T>(l: Language<S, T>, t: Tree<S>) {
    match t
    case LeafTree(_, _) => false
    case ListTree(_, items, _) => exists i :: 0 <= i < |items| && RepeatsName(l, items[i])
    case RecordTree(_, fields, _) =>
      || (exists i, j :: 0 <= i < j < |fields| && l.name(fields[i].name) == l.name(fields[j].name))
      || (exists i :: 0 <= i < |fields| && RepeatsNameBelow(l, fields[i]))
  }

  ghost predicate RepeatsNameBelow<S, T>(l: Language<S, T>, f: Field<S>) {
    match f
    case Field(_, _, value) => RepeatsName(l, value)
  }

  // ---------- Texts as the parser's documents ----------

  function ToDocument<S, T>(l: Language<S, T>, t: Tree<S>): Document {
    match t
    case LeafTree(scalar, at) => DocScalar(Leaf(l.atom(scalar), l.name(scalar)), at)
    case ListTree(open, items, close) => DocList(open, ToDocuments(l, items), close)
    case RecordTree(open, fields, close) => DocRecord(open, ToMembers(l, fields), close)
  }

  function ToDocuments<S, T>(l: Language<S, T>, items: seq<Tree<S>>): (documents: seq<Document>)
    ensures |documents| == |items|
  {
    seq(|items|, i requires 0 <= i < |items| => ToDocument(l, items[i]))
  }

  function ToMembers<S, T>(l: Language<S, T>, fields: seq<Field<S>>): (members: seq<Member>)
    ensures |members| == |fields|
  {
    seq(|fields|, i requires 0 <= i < |fields| => ToMember(l, fields[i]))
  }

  function ToMember<S, T>(l: Language<S, T>, f: Field<S>): Member {
    match f
    case Field(name, at, value) => Member(Leaf(l.atom(name), l.name(name)), at, ToDocument(l, value))
  }

  /** The reader of single tokens agrees with the language, in both directions. */
  ghost predicate Reads<S(!new), T(!new)>(l: Language<S, T>, from: T -> Event) {
    && (forall s :: from(l.token(s)) == Leaf(l.atom(s), l.name(s)))
    && from(l.listOpen) == SequenceStart(true) && from(l.listClose) == SequenceEnd
    && from(l.recordOpen) == MappingStart(true) && from(l.recordClose) == MappingEnd
    && (forall t :: from(t).Leaf? && (from(t).atom.Some? || from(t).key.Some?) ==> exists s :: l.token(s) == t)
    && (forall t :: from(t) == SequenceStart(true) ==> t == l.listOpen)
    && (forall t :: from(t) == SequenceEnd ==> t == l.listClose)
    && (forall t :: from(t) == MappingStart(true) ==> t == l.recordOpen)
    && (forall t :: from(t) == MappingEnd ==> t == l.recordClose)
  }

  function Translate<T>(from: T -> Event, tokens: seq<(T, Position)>): (s: Stream)
    ensures |s| == |tokens|
  {
    seq(|tokens|, i requires 0 <= i < |tokens| => (from(tokens[i].0), tokens[i].1))
  }

  lemma TranslateConcat<T>(from: T -> Event, left: seq<(T, Position)>, right: seq<(T, Position)>)
    ensures Translate(from, left + right) == Translate(from, left) + Translate(from, right)
  {
  }

  lemma TranslateCut<T>(from: T -> Event, tokens: seq<(T, Position)>, left: Stream, right: Stream)
    requires Translate(from, tokens) == left + right
    ensures Translate(from, tokens[..|left|]) == left && Translate(from, tokens[|left|..]) == right
  {
    var s, n := Translate(from, tokens), |left|;
    assert Translate(from, tokens[..n]) == s[..n] == left;
    assert Translate(from, tokens[n..]) == s[n..] == right;
  }

  lemma {:induction false} DocumentIsText<S(!new), T(!new)>(l: Language<S, T>, from: T -> Event, t: Tree<S>)
    requires Reads(l, from)
    ensures Translate(from, Tokens(l, t)) == Emit(ToDocument(l, t))
    decreases t, 0
  {
    match t
    case LeafTree(_, _) =>
    case ListTree(open, items, close) =>
      ItemsAreText(l, from, items);
      TranslateConcat(from, [(l.listOpen, open)] + TokensOfItems(l, items), [(l.listClose, close)]);
      TranslateConcat(from, [(l.listOpen, open)], TokensOfItems(l, items));
    case RecordTree(open, fields, close) =>
      FieldsAreText(l, from, fields);
      TranslateConcat(from, [(l.recordOpen, open)] + TokensOfFields(l, fields), [(l.recordClose, close)]);
      TranslateConcat(from, [(l.recordOpen, open)], TokensOfFields(l, fields));
  }

  lemma {:induction false} ItemsAreText<S(!new), T(!new)>(l: Language<S, T>, from: T -> Event, items: seq<Tree<S>>)
    requires Reads(l, from)
    ensures Translate(from, TokensOfItems(l, items)) == EmitItems(ToDocuments(l, items))
    decreases items
  {
    if items != [] {
      DocumentIsText(l, from, items[0]);
      ItemsAreText(l, from, items[1..]);
      TranslateConcat(from, Tokens(l, items[0]), TokensOfItems(l, items[1..]));
      assert ToDocuments(l, items)[1..] == ToDocuments(l, items[1..]);
    }
  }

  lemma {:induction false} FieldsAreText<S(!new), T(!new)>(l: Language<S, T>, from: T -> Event, fields: seq<Field<S>>)
    requires Reads(l, from)
    ensures Translate(from, TokensOfFields(l, fields)) == EmitMembers(ToMembers(l, fields))
    decreases fields
  {
    if fields != [] {
      FieldIsText(l, from, fields[0]);
      FieldsAreText(l, from, fields[1..]);
      TranslateConcat(from, TokensOfField(l, fields[0]), TokensOfFields(l, fields[1..]));
      assert ToMembers(l, fields)[1..] == ToMembers(l, fields[1..]);
    }
  }

  lemma {:induction false} FieldIsText<S(!new), T(!new)>(l: Language<S, T>, from: T -> Event, f: Field<S>)
    requires Reads(l, from)
    ensures Translate(from, TokensOfField(l, f)) == EmitMember(ToMember(l, f))
    decreases f, 0
  {
    match f
    case Field(name, at, value) =>
      DocumentIsText(l, from, value);
      TranslateConcat(from, [(l.token(name), at)], Tokens(l, value));
  }

  lemma {:induction false} LegalIsWellFormed<S, T>(l: Language<S, T>, t: Tree<S>)
    ensures Legal(l, t) <==> WellFormed(ToDocument(l, t))
    decreases t, 0
  {
    match t
    case LeafTree(_, _) =>
    case ListTree(_, items, _) =>
      forall i | 0 <= i < |items| ensures Legal(l, items[i]) <==> WellFormed(ToDocuments(l, items)[i]) {
        LegalIsWellFormed(l, items[i]);
      }
    case RecordTree(_, fields, _) =>
      forall i | 0 <= i < |fields| ensures LegalField(l, fields[i]) <==> WellFormedMember(ToMembers(l, fields)[i]) {
        LegalFieldIsWellFormed(l, fields[i]);
      }
  }

  lemma {:induction false} LegalFieldIsWellFormed<S, T>(l: Language<S, T>, f: Field<S>)
    ensures LegalField(l, f) <==> WellFormedMember(ToMember(l, f))
    decreases f, 0
  {
    match f
    case Field(_, _, value) => LegalIsWellFormed(l, value);
  }

  lemma {:induction false} MeaningIsValue<S, T>(l: Language<S, T>, t: Tree<S>)
    requires Legal(l, t)
    ensures WellFormed(ToDocument(l, t)) && ValueOf(ToDocument(l, t)) == Meaning(l, t)
    decreases t, 0
  {
    LegalIsWellFormed(l, t);
    match t
    case LeafTree(_, _) =>
    case ListTree(_, items, _) =>
      forall i | 0 <= i < |items| ensures ValueOf(ToDocuments(l, items)[i]) == Meaning(l, items[i]) {
        MeaningIsValue(l, items[i]);
      }
    case RecordTree(_, fields, _) =>
      FieldsMeaning(l, fields);
  }

  lemma {:induction false} FieldsMeaning<S, T>(l: Language<S, T>, fields: seq<Field<S>>)
    requires forall i :: 0 <= i < |fields| ==> LegalField(l, fields[i])
    ensures forall i :: 0 <= i < |fields| ==> WellFormedMember(ToMembers(l, fields)[i])
    ensures MembersOf(ToMembers(l, fields)) == MeaningOfFields(l, fields)
    decreases fields
  {
    if fields != [] {
      var front, last := fields[..|fields| - 1], fields[|fields| - 1];
      FieldsMeaning(l, front);
      FieldMeaning(l, last);
      assert ToMembers(l, fields) == ToMembers(l, front) + [ToMember(l, last)];
      assert ToMembers(l, fields)[..|front|] == ToMembers(l, front);
    }
  }

  lemma {:induction false} FieldMeaning<S, T>(l: Language<S, T>, f: Field<S>)
    requires LegalField(l, f)
    ensures WellFormedMember(ToMember(l, f)) && MemberValue(ToMember(l, f)) == MeaningOfField(l, f)
    decreases f, 0
  {
    match f
    case Field(_, _, value) => MeaningIsValue(l, value);
  }

  lemma {:induction false} SameRepeats<S, T>(l: Language<S, T>, t: Tree<S>)
    requires Legal(l, t)
    ensures RepeatsName(l, t) <==> RepeatsKey(ToDocument(l, t))
    decreases t, 0
  {
    match t
    case LeafTree(_, _) =>
    case ListTree(_, items, _) =>
      var documents := ToDocuments(l, items);
      forall i | 0 <= i < |items| ensures RepeatsName(l, items[i]) <==> RepeatsKey(documents[i]) {
        SameRepeats(l, items[i]);
      }
    case RecordTree(_, fields, _) =>
      var members := ToMembers(l, fields);
      forall i | 0 <= i < |fields| ensures RepeatsNameBelow(l, fields[i]) <==> RepeatsKeyBelow(members[i]) {
        SameRepeatsBelow(l, fields[i]);
      }
      forall i, j | 0 <= i < j < |fields|
        ensures l.name(fields[i].name) == l.name(fields[j].name) <==> SameName(members[i], members[j])
      {
        FieldIsNamed(l, fields[i]);
        FieldIsNamed(l, fields[j]);
      }
  }

  lemma FieldIsNamed<S, T>(l: Language<S, T>, f: Field<S>)
    requires LegalField(l, f)
    ensures l.name(f.name).Some? && ToMember(l, f).name == Leaf(l.atom(f.name), l.name(f.name))
  {
  }

  lemma {:induction false} SameRepeatsBelow<S, T>(l: Language<S, T>, f: Field<S>)
    requires LegalField(l, f)
    ensures RepeatsNameBelow(l, f) <==> RepeatsKeyBelow(ToMember(l, f))
    decreases f, 0
  {
    match f
    case Field(_, _, value) => SameRepeats(l, value);
  }

  // ---------- Every document read from tokens is a text ----------

  /** What stands between an opening and a closing token. */
  lemma Bracketed<T>(from: T -> Event, tokens: seq<(T, Position)>, open: (Event, Position), inner: Stream,
                     close: (Event, Position))
    requires Translate(from, tokens) == [open] + inner + [close]
    ensures |tokens| >= 2
    ensures from(tokens[0].0) == open.0 && tokens[0].1 == open.1
    ensures from(tokens[|tokens| - 1].0) == close.0 && tokens[|tokens| - 1].1 == close.1
    ensures Translate(from, tokens[1..|tokens| - 1]) == inner
    ensures tokens == [tokens[0]] + tokens[1..|tokens| - 1] + [tokens[|tokens| - 1]]
  {
    var s, n := Translate(from, tokens), |tokens| - 1;
    assert s[0] == open && s[n] == close;
    assert Translate(from, tokens[1..n]) == s[1..n] == inner;
  }

  lemma ScalarOf<S(!new), T(!new)>(l: Language<S, T>, from: T -> Event, token: T) returns (scalar: S)
    requires Reads(l, from) && from(token).Leaf? && (from(token).atom.Some? || from(token).key.Some?)
    ensures l.token(scalar) == token && from(token) == Leaf(l.atom(scalar), l.name(scalar))
  {
    scalar :| l.token(scalar) == token;
  }

  lemma Brackets<S(!new), T(!new)>(l: Language<S, T>, from: T -> Event, token: T)
    requires Reads(l, from)
    ensures from(token) == SequenceStart(true) ==> token == l.listOpen
    ensures from(token) == SequenceEnd ==> token == l.listClose
    ensures from(token) == MappingStart(true) ==> token == l.recordOpen
    ensures from(token) == MappingEnd ==> token == l.recordClose
  {
  }

  lemma {:induction false} TextOf<S(!new), T(!new)>(l: Language<S, T>, from: T -> Event, tokens: seq<(T, Position)>,
                                                    d: Document) returns (t: Tree<S>)
    requires Reads(l, from) && WellFormed(d) && Translate(from, tokens) == Emit(d)
    ensures Tokens(l, t) == tokens && ToDocument(l, t) == d
    decreases d, 0
  {
    hide Reads, Translate;
    match d
    case DocScalar(event, at) =>
      OneToken(from, tokens, event, at);
      var scalar := ScalarOf(l, from, tokens[0].0);
      t := LeafTree(scalar, at);
    case DocList(open, items, close) =>
      var n := |tokens| - 1;
      Bracketed(from, tokens, (SequenceStart(true), open), EmitItems(items), (SequenceEnd, close));
      Brackets(l, from, tokens[0].0);
      Brackets(l, from, tokens[n].0);
      var trees := TextsOf(l, from, tokens[1..n], items);
      t := ListTree(open, trees, close);
    case DocRecord(open, members, close) =>
      var n := |tokens| - 1;
      Bracketed(from, tokens, (MappingStart(true), open), EmitMembers(members), (MappingEnd, close));
      Brackets(l, from, tokens[0].0);
      Brackets(l, from, tokens[n].0);
      var fields := FieldsOf(l, from, tokens[1..n], members);
      t := RecordTree(open, fields, close);
  }

  lemma OneToken<T>(from: T -> Event, tokens: seq<(T, Position)>, event: Event, at: Position)
    requires Translate(from, tokens) == [(event, at)]
    ensures |tokens| == 1 && from(tokens[0].0) == event && tokens[0].1 == at
  {
    assert Translate(from, tokens)[0] == (event, at);
  }

  lemma {:induction false} TextsOf<S(!new), T(!new)>(l: Language<S, T>, from: T -> Event, tokens: seq<(T, Position)>,
                                                     items: seq<Document>) returns (trees: seq<Tree<S>>)
    requires Reads(l, from) && Translate(from, tokens) == EmitItems(items)
    requires forall i :: 0 <= i < |items| ==> WellFormed(items[i])
    ensures TokensOfItems(l, trees) == tokens && ToDocuments(l, trees) == items
    decreases items
  {
    if items == [] {
      trees := [];
    } else {
      var n := |Emit(items[0])|;
      TranslateCut(from, tokens, Emit(items[0]), EmitItems(items[1..]));
      var first := TextOf(l, from, tokens[..n], items[0]);
      var rest := TextsOf(l, from, tokens[n..], items[1..]);
      trees := [first] + rest;
      assert ToDocuments(l, trees) == [items[0]] + items[1..];
    }
  }

  lemma {:induction false} FieldsOf<S(!new), T(!new)>(l: Language<S, T>, from: T -> Event, tokens: seq<(T, Position)>,
                                                      members: seq<Member>) returns (fields: seq<Field<S>>)
    requires Reads(l, from) && Translate(from, tokens) == EmitMembers(members)
    requires forall i :: 0 <= i < |members| ==> WellFormedMember(members[i])
    ensures TokensOfFields(l, fields) == tokens && ToMembers(l, fields) == members
    decreases members
  {
    if members == [] {
      fields := [];
    } else {
      var n := |EmitMember(members[0])|;
      TranslateCut(from, tokens, EmitMember(members[0]), EmitMembers(members[1..]));
      var first := FieldOf(l, from, tokens[..n], members[0]);
      var rest := FieldsOf(l, from, tokens[n..], members[1..]);
      fields := [first] + rest;
      assert ToMembers(l, fields) == [members[0]] + members[1..];
    }
  }

  lemma {:induction false} FieldOf<S(!new), T(!new)>(l: Language<S, T>, from: T -> Event, tokens: seq<(T, Position)>,
                                                     m: Member) returns (f: Field<S>)
    requires Reads(l, from) && WellFormedMember(m) && Translate(from, tokens) == EmitMember(m)
    ensures TokensOfField(l, f) == tokens && ToMember(l, f) == m
    decreases m, 0
  {
    match m
    case Member(name, at, value) =>
      TranslateCut(from, tokens, [(name, at)], Emit(value));
      OneToken(from, tokens[..1], name, at);
      var scalar := ScalarOf(l, from, tokens[0].0);
      var tree := TextOf(l, from, tokens[1..], value);
      f := Field(scalar, at, tree);
      assert tokens == [tokens[0]] + tokens[1..];
  }

  // ---------- Sources ----------

  /** The tokens are: some before, those of the text, some after, and then anything. */
  ghost predicate IsSource<S, T>(l: Language<S, T>, tokens: seq<(T, Position)>, before: seq<T>, t: Tree<S>,
                                 after: seq<T>) {
    && Legal(l, t) && |before| + |Tokens(l, t)| + |after| <= |tokens|
    && (forall i :: 0 <= i < |before| ==> tokens[i].0 == before[i])
    && tokens[|before|..|before| + |Tokens(l, t)|] == Tokens(l, t)
    && (forall i :: 0 <= i < |after| ==> tokens[|before| + |Tokens(l, t)| + i].0 == after[i])
  }

  /** The value of a text, or its first repeated name with both positions. */
  function Outcome<S, T>(l: Language<S, T>, t: Tree<S>): Result<Value>
    requires Legal(l, t)
  {
    LegalIsWellFormed(l, t);
    if FirstRepeat(ToDocument(l, t), "").Some? then Err(FirstRepeat(ToDocument(l, t), "").value) else Ok(Meaning(l, t))
  }

  /** Between the texts and the parser's documents, for these marks. */
  ghost predicate Marks<T(!new)>(from: T -> Event, tokens: seq<T>, marks: seq<Mark>) {
    && |tokens| == |marks|
    && forall i, t :: 0 <= i < |tokens| ==> (from(t) == Other(marks[i]) <==> t == tokens[i])
  }

  lemma SourceIsHeld<S(!new), T(!new)>(l: Language<S, T>, from: T -> Event, tokens: seq<(T, Position)>,
                                       before: seq<T>, t: Tree<S>, after: seq<T>, start: seq<Mark>, end: seq<Mark>)
    requires Reads(l, from) && Marks(from, before, start) && Marks(from, after, end)
    requires IsSource(l, tokens, before, t, after)
    ensures Holds(Translate(from, tokens), start, ToDocument(l, t), end)
    ensures DocumentOutcome(ToDocument(l, t)) == Outcome(l, t)
  {
    hide Reads, Legal, Tokens, ToDocument, Emit, WellFormed, Meaning, FirstRepeat, ValueOf;
    LegalIsWellFormed(l, t);
    MeaningIsValue(l, t);
    DocumentIsText(l, from, t);
    var s, n := Translate(from, tokens), |Tokens(l, t)|;
    assert s[|before|..|before| + n] == Translate(from, tokens[|before|..|before| + n]);
    forall i | 0 <= i < |start| ensures s[i].0 == Other(start[i]) {
      assert from(before[i]) == Other(start[i]);
    }
    forall i | 0 <= i < |end| ensures s[|start| + n + i].0 == Other(end[i]) {
      assert from(after[i]) == Other(end[i]);
    }
  }

  lemma HeldIsSource<S(!new), T(!new)>(l: Language<S, T>, from: T -> Event, tokens: seq<(T, Position)>,
                                       before: seq<T>, d: Document, after: seq<T>, start: seq<Mark>, end: seq<Mark>)
    returns (t: Tree<S>)
    requires Reads(l, from) && Marks(from, before, start) && Marks(from, after, end)
    requires Holds(Translate(from, tokens), start, d, end)
    ensures IsSource(l, tokens, before, t, after) && ToDocument(l, t) == d
  {
    hide Reads, Legal, Tokens, ToDocument, Emit, WellFormed;
    var s, n := Translate(from, tokens), |Emit(d)|;
    var inner := tokens[|before|..|before| + n];
    assert Translate(from, inner) == s[|before|..|before| + n];
    t := TextOf(l, from, inner, d);
    LegalIsWellFormed(l, t);
    forall i | 0 <= i < |before| ensures tokens[i].0 == before[i] {
      assert from(tokens[i].0) == s[i].0 == Other(start[i]);
    }
    forall i | 0 <= i < |after| ensures tokens[|before| + n + i].0 == after[i] {
      assert from(tokens[|before| + n + i].0) == s[|start| + n + i].0 == Other(end[i]);
    }
  }

  // ---------- Errors ----------

  /** More tokens make a source of these: that of the text. */
  ghost predicate Completes<S, T>(l: Language<S, T>, tokens: seq<(T, Position)>, more: seq<(T, Position)>,
                                  before: seq<T>, t: Tree<S>, after: seq<T>) {
    IsSource(l, tokens + more, before, t, after)
  }

  /** The tokens are the start of some source. */
  ghost predicate Viable<S(!new), T(!new)>(l: Language<S, T>, tokens: seq<(T, Position)>, before: seq<T>, after: seq<T>)
  {
    exists more, t :: Completes(l, tokens, more, before, t, after)
  }

  /**
   An invalid token is the first that no source has in this place, and the pointer is that of the value it would
   belong to. A repeated name is the first repeat of a text that goes on from it.
   */
  ghost predicate Explained<S(!new), T(!new)>(l: Language<S, T>, tokens: seq<(T, Position)>, before: seq<T>,
                                              after: seq<T>, e: Error)
  {
    exists k: nat, more, t :: ExplainedBy(l, tokens, before, after, e, k, more, t)
  }

  ghost predicate ExplainedBy<S(!new), T(!new)>(l: Language<S, T>, tokens: seq<(T, Position)>, before: seq<T>,
                                                after: seq<T>, e: Error, k: nat, more: seq<(T, Position)>, t: Tree<S>)
  {
    match e
    case Invalid(path, position) =>
      && k <= |tokens| && Completes(l, tokens[..k], more, before, t, after)
      && path == DisplayPath(SourcePlace(ToDocument(l, t), k, |before|))
      && (if k == |tokens| then position == None
          else position == Some(tokens[k].1) && !Viable(l, tokens[..k + 1], before, after))
    case DuplicateKey(_, _, _, repeated) =>
      && k < |tokens| && tokens[k].1 == repeated
      && Completes(l, tokens[..k + 1], more, before, t, after) && Outcome(l, t) == Err(e)
  }

  /** Every event of these has a token. */
  ghost predicate HasTokens<T(!new)>(from: T -> Event, s: Stream) {
    forall i :: 0 <= i < |s| ==> exists x :: from(x) == s[i].0
  }

  lemma {:induction false} TokensFor<T(!new)>(from: T -> Event, s: Stream) returns (tokens: seq<(T, Position)>)
    requires HasTokens(from, s)
    ensures Translate(from, tokens) == s
  {
    if s == [] {
      tokens := [];
    } else {
      var n := |s| - 1;
      assert HasTokens(from, s[..n]) by {
        forall i | 0 <= i < n ensures exists x :: from(x) == s[..n][i].0 {
          assert s[..n][i] == s[i];
        }
      }
      var front := TokensFor(from, s[..n]);
      var x :| from(x) == s[n].0;
      tokens := front + [(x, s[n].1)];
      TranslateConcat(from, front, [(x, s[n].1)]);
      assert s == s[..n] + [s[n]];
    }
  }

  lemma EndingHasTokens<S(!new), T(!new)>(l: Language<S, T>, from: T -> Event, filler: S, t: Stream,
                                          before: seq<T>, after: seq<T>, start: seq<Mark>, end: seq<Mark>)
    requires Reads(l, from) && Marks(from, before, start) && Marks(from, after, end)
    requires Ending(t, Leaf(l.atom(filler), l.name(filler)), start, end)
    ensures HasTokens(from, t)
  {
    forall i | 0 <= i < |t| ensures exists x :: from(x) == t[i].0 {
      if Filling(t[i].0, Leaf(l.atom(filler), l.name(filler))) {
        assert from(l.token(filler)) == Leaf(l.atom(filler), l.name(filler));
        assert from(l.listClose) == SequenceEnd && from(l.recordClose) == MappingEnd;
      } else if exists j :: 0 <= j < |start| && t[i].0 == Other(start[j]) {
        var j :| 0 <= j < |start| && t[i].0 == Other(start[j]);
        assert from(before[j]) == Other(start[j]);
      } else {
        var j :| 0 <= j < |end| && t[i].0 == Other(end[j]);
        assert from(after[j]) == Other(end[j]);
      }
    }
  }

  /** No source continues tokens whose events no document continues. */
  lemma NotViable<S(!new), T(!new)>(l: Language<S, T>, from: T -> Event, tokens: seq<(T, Position)>,
                                    before: seq<T>, after: seq<T>, start: seq<Mark>, end: seq<Mark>)
    requires Reads(l, from) && Marks(from, before, start) && Marks(from, after, end)
    requires NeverHolds(Translate(from, tokens), start, end)
    ensures !Viable(l, tokens, before, after)
  {
    hide Reads, Marks, IsSource, Holds, Translate, ToDocument;
    forall more, t ensures !Completes(l, tokens, more, before, t, after) {
      if Completes(l, tokens, more, before, t, after) {
        CompletedIsFinished(l, from, tokens, more, before, t, after, start, end);
      }
    }
  }

  lemma CompletedIsFinished<S(!new), T(!new)>(l: Language<S, T>, from: T -> Event, tokens: seq<(T, Position)>,
                                              more: seq<(T, Position)>, before: seq<T>, t: Tree<S>, after: seq<T>,
                                              start: seq<Mark>, end: seq<Mark>)
    requires Reads(l, from) && Marks(from, before, start) && Marks(from, after, end)
    requires Completes(l, tokens, more, before, t, after)
    ensures Finishes(Translate(from, tokens), Translate(from, more), start, ToDocument(l, t), end)
  {
    hide Reads, Marks, IsSource, Holds, Translate, ToDocument;
    SourceIsHeld(l, from, tokens + more, before, t, after, start, end);
    TranslateConcat(from, tokens, more);
  }

  lemma SourceIsLegal<S, T>(l: Language<S, T>, tokens: seq<(T, Position)>, before: seq<T>, t: Tree<S>, after: seq<T>)
    requires IsSource(l, tokens, before, t, after)
    ensures Legal(l, t) && WellFormed(ToDocument(l, t))
  {
    LegalIsWellFormed(l, t);
  }

  lemma TranslateFront<T>(from: T -> Event, tokens: seq<(T, Position)>, n: nat)
    requires n <= |tokens|
    ensures Translate(from, tokens[..n]) == Translate(from, tokens)[..n]
  {
  }

  lemma ErrorIsExplained<S(!new), T(!new)>(l: Language<S, T>, from: T -> Event, filler: S, tokens: seq<(T, Position)>,
                                           before: seq<T>, after: seq<T>, start: seq<Mark>, end: seq<Mark>)
    requires Reads(l, from) && Marks(from, before, start) && Marks(from, after, end) && l.atom(filler).Some?
    requires SourceOutcome(Translate(from, tokens), start, end).Err?
    ensures Explained(l, tokens, before, after, SourceOutcome(Translate(from, tokens), start, end).error)
  {
    hide Reads, Marks, SourceOutcome, Ending, IsSource, Holds, NeverHolds, Viable, SourcePlace, Meaning, Legal;
    hide FirstRepeat, ToDocument;
    var s := Translate(from, tokens);
    var e := SourceOutcome(s, start, end).error;
    var k, d, ending := SourceFailure(s, start, end, Leaf(l.atom(filler), l.name(filler)));
    var n := Accepted(e, k);
    EndingHasTokens(l, from, filler, ending, before, after, start, end);
    var more := TokensFor(from, ending);
    TranslateFront(from, tokens, n);
    TranslateConcat(from, tokens[..n], more);
    var t := HeldIsSource(l, from, tokens[..n] + more, before, d, after, start, end);
    SourceIsLegal(l, tokens[..n] + more, before, t, after);
    SameLengths(from, before, start);
    if e.Invalid? && k < |tokens| {
      TranslateFront(from, tokens, k + 1);
      NotViable(l, from, tokens[..k + 1], before, after, start, end);
    }
    if e.DuplicateKey? {
      RepeatedOutcome(l, t);
    }
    assert ExplainedBy(l, tokens, before, after, e, k, more, t);
  }

  lemma SameLengths<T(!new)>(from: T -> Event, tokens: seq<T>, marks: seq<Mark>)
    requires Marks(from, tokens, marks)
    ensures |tokens| == |marks|
  {
  }

  lemma RepeatedOutcome<S, T>(l: Language<S, T>, t: Tree<S>)
    requires Legal(l, t) && WellFormed(ToDocument(l, t)) && FirstRepeat(ToDocument(l, t), "").Some?
    ensures Outcome(l, t) == Err(FirstRepeat(ToDocument(l, t), "").value)
  {
    hide FirstRepeat, ToDocument, Legal;
  }

  /** One text between marks: its outcome, and nothing else is accepted. */
  method ParseText<S(!new), T(!new)>(ghost l: Language<S, T>, from: T -> Event, tokens: seq<(T, Position)>,
                                     ghost before: seq<T>, ghost after: seq<T>, start: seq<Mark>, end: seq<Mark>,
                                     ghost filler: S)
    returns (r: Result<Value>)
    requires Reads(l, from) && Marks(from, before, start) && Marks(from, after, end) && l.atom(filler).Some?
    ensures forall t :: IsSource(l, tokens, before, t, after) ==> r == Outcome(l, t)
    ensures r.Ok? ==>
      exists t :: IsSource(l, tokens, before, t, after) && !RepeatsName(l, t) && r.value == Meaning(l, t)
    ensures r.Err? ==> Explained(l, tokens, before, after, r.error)
  {
    hide Explained, SourceOutcome;
    hide Reads, Marks, Outcome, DocumentOutcome, RepeatsKey, RepeatsName, WellFormed, Legal, Tokens, Emit, Translate;
    r := ParseSource(Translate(from, tokens), start, end);
    forall t | IsSource(l, tokens, before, t, after) ensures r == Outcome(l, t) {
      SourceIsHeld(l, from, tokens, before, t, after, start, end);
    }
    if r.Err? {
      ErrorIsExplained(l, from, filler, tokens, before, after, start, end);
    } else {
      ghost var d :| Holds(Translate(from, tokens), start, d, end) && !RepeatsKey(d) && r.value == ValueOf(d);
      ghost var t := HeldIsSource(l, from, tokens, before, d, after, start, end);
      SameRepeats(l, t);
      MeaningIsValue(l, t);
    }
  }

  // ---------- JSON ----------

  datatype JsonToken =
    | LitNull | LitTrue | LitFalse | Num(number: Option<string>) | Str(unescaped: string)
    | ArrBegin | ArrEnd | ObjBegin | ObjEnd | JsonEof | JsonErr | JsonOther

  /** parse_json_value and the member-name test, for one token. A number literal may be out of range. */
  function FromJson(t: JsonToken): Event {
    match t
    case LitNull => Leaf(Some(Null), None)
    case LitTrue => Leaf(Some(Bool(true)), None)
    case LitFalse => Leaf(Some(Bool(false)), None)
    case Num(number) => Leaf(if number.Some? then Some(Number(number.value)) else None, None)
    case Str(text) => Leaf(Some(Text(text)), Some(text))
    case ArrBegin => SequenceStart(true)
    case ArrEnd => SequenceEnd
    case ObjBegin => MappingStart(true)
    case ObjEnd => MappingEnd
    case JsonEof => Other(Eof)
    case JsonErr => Broken
    case JsonOther => Other(Misplaced)
  }

  datatype JsonScalar = NullLiteral | TrueLiteral | FalseLiteral | Numeral(literal: string) | Quoted(text: string)

  /** Section 3 of RFC 8259, and strings as the names of members (section 4). */
  function JsonLanguage(): Language<JsonScalar, JsonToken> {
    Language((s: JsonScalar) => match s
                                case NullLiteral => LitNull
                                case TrueLiteral => LitTrue
                                case FalseLiteral => LitFalse
                                case Numeral(literal) => Num(Some(literal))
                                case Quoted(text) => Str(text),
             (s: JsonScalar) => match s
                                case NullLiteral => Some(Null)
                                case TrueLiteral => Some(Bool(true))
                                case FalseLiteral => Some(Bool(false))
                                case Numeral(literal) => Some(Number(literal))
                                case Quoted(text) => Some(Text(text)),
             (s: JsonScalar) => if s.Quoted? then Some(s.text) else None,
             ArrBegin, ArrEnd, ObjBegin, ObjEnd)
  }

  lemma JsonIsRead()
    ensures Reads(JsonLanguage(), FromJson)
    ensures Marks(FromJson, [JsonEof], [Eof])
    ensures forall t :: FromJson(t) == Broken <==> t == JsonErr
  {
    var l := JsonLanguage();
    forall t | FromJson(t).Leaf? && (FromJson(t).atom.Some? || FromJson(t).key.Some?)
      ensures exists s :: l.token(s) == t
    {
      match t
      case LitNull => assert l.token(NullLiteral) == t;
      case LitTrue => assert l.token(TrueLiteral) == t;
      case LitFalse => assert l.token(FalseLiteral) == t;
      case Num(number) => assert l.token(Numeral(number.value)) == t;
      case Str(text) => assert l.token(Quoted(text)) == t;
    }
  }

  /** parse_json: the value of one JSON text before the end, or its first repeated name; nothing else is accepted. */
  method ParseJson(tokens: seq<(JsonToken, Position)>) returns (r: Result<Value>)
    ensures forall t :: IsSource(JsonLanguage(), tokens, [], t, [JsonEof]) ==> r == Outcome(JsonLanguage(), t)
    ensures r.Ok? ==>
      exists t :: && IsSource(JsonLanguage(), tokens, [], t, [JsonEof])
                  && !RepeatsName(JsonLanguage(), t) && r.value == Meaning(JsonLanguage(), t)
    ensures r.Err? ==> Explained(JsonLanguage(), tokens, [], [JsonEof], r.error)
  {
    JsonIsRead();
    r := ParseText(JsonLanguage(), FromJson, tokens, [], [JsonEof], [], [Eof], NullLiteral);
  }

  // ---------- YAML ----------

  datatype YamlEvent =
    | YamlScalar(text: string, isPlain: bool, anchor: nat, tagged: bool)
    | YamlSequenceStart(anchor: nat, tagged: bool) | YamlSequenceEnd
    | YamlMappingStart(anchor: nat, tagged: bool) | YamlMappingEnd
    | YamlAlias | YamlMark(mark: Mark) | YamlErr

  /** parse_yaml_scalar for a plain scalar; `numbers` stands for the number grammars. */
  function PlainAtom(text: string, numbers: string -> Option<string>): Option<Atom> {
    if text in {"", "~", "null", "Null", "NULL"} then
      Some(Null)
    else if text in {"true", "True", "TRUE"} then
      Some(Bool(true))
    else if text in {"false", "False", "FALSE"} then
      Some(Bool(false))
    else if text in {".inf", ".Inf", ".INF", "+.inf", "+.Inf", "+.INF", "-.inf", "-.Inf", "-.INF", ".nan", ".NaN",
                     ".NAN"} then
      None
    else if numbers(text).Some? then
      Some(Number(numbers(text).value))
    else
      Some(Text(text))
  }

  /** parse_yaml_value and parse_yaml_key for one event: anchors, tags, aliases and merge keys are refused. */
  function FromYaml(e: YamlEvent, numbers: string -> Option<string>): Event {
    match e
    case YamlScalar(text, isPlain, anchor, tagged) =>
      if tagged || anchor != 0 then
        Leaf(None, None)
      else if !isPlain then
        Leaf(Some(Text(text)), Some(text))
      else
        var atom := PlainAtom(text, numbers);
        Leaf(atom, if atom.Some? && atom.value.Text? && text != "<<" then Some(atom.value.text) else None)
    case YamlSequenceStart(anchor, tagged) => SequenceStart(!tagged && anchor == 0)
    case YamlSequenceEnd => SequenceEnd
    case YamlMappingStart(anchor, tagged) => MappingStart(!tagged && anchor == 0)
    case YamlMappingEnd => MappingEnd
    case YamlAlias => Other(Misplaced)
    case YamlMark(mark) => Other(mark)
    case YamlErr => Broken
  }

  function UpperChar(c: char): char {
    if 'a' <= c <= 'z' then c - 'a' + 'A' else c
  }

  /** A word in small letters, capitalised, and in capitals. */
  function Spellings(word: string): set<string>
    requires word != ""
  {
    {word, [UpperChar(word[0])] + word[1..], seq(|word|, i requires 0 <= i < |word| => UpperChar(word[i]))}
  }

  /** A plain scalar for a number that is not finite. */
  ghost predicate NotFinite(text: string) {
    || text in {".nan", ".NaN", ".NAN"}
    || exists word :: word in Spellings("inf") && text in {"." + word, "+." + word, "-." + word}
  }

  /** A plain scalar resolved as in the core schema (section 10.3.2 of YAML 1.2.2); it stands for itself otherwise. */
  ghost function PlainMeaning(text: string, numbers: string -> Option<string>): Option<Atom> {
    if text == "" || text == "~" || text in Spellings("null") then Some(Null)
    else if text in Spellings("true") then Some(Bool(true))
    else if text in Spellings("false") then Some(Bool(false))
    else if NotFinite(text) then None
    else Some(if numbers(text).Some? then Number(numbers(text).value) else Text(text))
  }

  datatype YamlScalarText = YamlScalarText(text: string, isPlain: bool)

  /** Quoted scalars are strings; a name is a string, and not the plain merge key. No anchors and no tags. */
  ghost function YamlLanguage(numbers: string -> Option<string>): Language<YamlScalarText, YamlEvent> {
    Language((s: YamlScalarText) => YamlScalar(s.text, s.isPlain, 0, false),
             (s: YamlScalarText) => if s.isPlain then PlainMeaning(s.text, numbers) else Some(Text(s.text)),
             (s: YamlScalarText) =>
               if s.isPlain && (s.text == "<<" || PlainMeaning(s.text, numbers) != Some(Text(s.text))) then None
               else Some(s.text),
             YamlSequenceStart(0, false), YamlSequenceEnd, YamlMappingStart(0, false), YamlMappingEnd)
  }

  lemma SpelledOut(word: string, capitalised: string, capitals: string)
    requires word != "" && |word| == |capitalised| == |capitals|
    requires capitalised[0] == capitals[0] && capitalised[1..] == word[1..]
    requires forall i :: 0 <= i < |word| ==> capitals[i] == UpperChar(word[i])
    ensures Spellings(word) == {word, capitalised, capitals}
  {
    assert [UpperChar(word[0])] + word[1..] == capitalised;
    assert seq(|word|, i requires 0 <= i < |word| => UpperChar(word[i])) == capitals;
  }

  lemma NotFiniteWords(text: string)
    ensures NotFinite(text) <==>
            text in {".inf", ".Inf", ".INF", "+.inf", "+.Inf", "+.INF", "-.inf", "-.Inf", "-.INF", ".nan", ".NaN",
                     ".NAN"}
  {
    hide Spellings;
    SpelledOut("inf", "Inf", "INF");
    assert "." + "inf" == ".inf" && "+." + "inf" == "+.inf" && "-." + "inf" == "-.inf";
    assert "." + "Inf" == ".Inf" && "+." + "Inf" == "+.Inf" && "-." + "Inf" == "-.Inf";
    assert "." + "INF" == ".INF" && "+." + "INF" == "+.INF" && "-." + "INF" == "-.INF";
  }

  lemma PlainIsResolved(text: string, numbers: string -> Option<string>)
    ensures PlainAtom(text, numbers) == PlainMeaning(text, numbers)
    ensures var atom := PlainMeaning(text, numbers); atom.Some? && atom.value.Text? ==> atom.value.text == text
  {
    hide NotFinite, Spellings;
    SpelledOut("null", "Null", "NULL");
    SpelledOut("true", "True", "TRUE");
    SpelledOut("false", "False", "FALSE");
    NotFiniteWords(text);
  }

  function YamlReader(numbers: string -> Option<string>): YamlEvent -> Event {
    e => FromYaml(e, numbers)
  }

  lemma YamlScalarIsRead(numbers: string -> Option<string>, s: YamlScalarText)
    ensures var l := YamlLanguage(numbers); YamlReader(numbers)(l.token(s)) == Leaf(l.atom(s), l.name(s))
  {
    hide PlainAtom, PlainMeaning;
    PlainIsResolved(s.text, numbers);
  }

  lemma YamlTokens(numbers: string -> Option<string>)
    ensures var l := YamlLanguage(numbers);
            && l.listOpen == YamlSequenceStart(0, false) && l.listClose == YamlSequenceEnd
            && l.recordOpen == YamlMappingStart(0, false) && l.recordClose == YamlMappingEnd
            && forall s :: l.token(s) == YamlScalar(s.text, s.isPlain, 0, false)
  {
  }

  lemma YamlIsRead(numbers: string -> Option<string>)
    ensures Reads(YamlLanguage(numbers), YamlReader(numbers))
  {
    hide PlainAtom, PlainMeaning, YamlLanguage;
    var l, from := YamlLanguage(numbers), YamlReader(numbers);
    YamlTokens(numbers);
    forall s ensures from(l.token(s)) == Leaf(l.atom(s), l.name(s)) {
      YamlScalarIsRead(numbers, s);
    }
    forall t | from(t).Leaf? && (from(t).atom.Some? || from(t).key.Some?) ensures exists s :: l.token(s) == t {
      assert l.token(YamlScalarText(t.text, t.isPlain)) == t;
    }
  }

  lemma YamlMarks(numbers: string -> Option<string>)
    ensures forall e :: YamlReader(numbers)(e) == Broken <==> e == YamlErr
    ensures Marks(YamlReader(numbers), [YamlMark(StreamStart), YamlMark(DocumentStart)], [StreamStart, DocumentStart])
    ensures Marks(YamlReader(numbers), [YamlMark(DocumentEnd), YamlMark(StreamEnd)], [DocumentEnd, StreamEnd])
  {
    hide PlainAtom;
  }

  /** parse_yaml: the value of the one document of a stream, or its first repeated name; nothing else is accepted. */
  method ParseYaml(events: seq<(YamlEvent, Position)>, numbers: string -> Option<string>) returns (r: Result<Value>)
    ensures var l := YamlLanguage(numbers);
            var before := [YamlMark(StreamStart), YamlMark(DocumentStart)];
            var after := [YamlMark(DocumentEnd), YamlMark(StreamEnd)];
            && (forall t :: IsSource(l, events, before, t, after) ==> r == Outcome(l, t))
            && (r.Ok? ==>
                  exists t :: IsSource(l, events, before, t, after) && !RepeatsName(l, t) && r.value == Meaning(l, t))
            && (r.Err? ==> Explained(l, events, before, after, r.error))
  {
    YamlIsRead(numbers);
    YamlMarks(numbers);
    r := ParseText(YamlLanguage(numbers), YamlReader(numbers), events,
                   [YamlMark(StreamStart), YamlMark(DocumentStart)], [YamlMark(DocumentEnd), YamlMark(StreamEnd)],
                   [StreamStart, DocumentStart], [DocumentEnd, StreamEnd], YamlScalarText("", false));
  }
}
