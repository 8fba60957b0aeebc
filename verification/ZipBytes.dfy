/**
 The archive byte by byte, in the literal numbers of the PKWARE APPNOTE (sections 4.3.7, 4.3.12, 4.3.16 and 4.4):
 where each record stands, and what each of its bytes is.

 Main result: SpelledExactly, the layout of the writer and the reader is this spelling and no other.
 */
module ZipBytes {
  import opened Wrappers
  import opened Bytes
  import opened ZipFormat
  import opened ZipReader
  import ArchivePath
  import Crc32
  import ZipParse
  import ZipWriter

  /** The number that bytes stand for, least significant byte first. */
  function Number(bytes: Bytes): nat {
    if bytes == [] then 0 else bytes[0] as int + 256 * Number(bytes[1..])
  }

  predicate Field(a: Bytes, at: nat, width: nat, n: nat) {
    at + width <= |a| && Number(a[at..at + width]) == n
  }

  predicate Literal(a: Bytes, at: nat, bytes: Bytes) {
    at + |bytes| <= |a| && a[at..at + |bytes|] == bytes
  }

  /** UTF-8 names, stored, midnight, the first of January 1980. */
  function CommonLiteral(): Bytes {
    [0x00, 0x08, 0x00, 0x00, 0x00, 0x00, 0x21, 0x00]
  }

  /** A local file header, the name and the data. */
  predicate LocalSpelled(a: Bytes, at: nat, e: Entry) {
    && Literal(a, at, [0x50, 0x4b, 0x03, 0x04, 0x14, 0x00])
    && Literal(a, at + 6, CommonLiteral())
    && Field(a, at + 14, 4, Crc32.Checksum(e.data) as int)
    && Field(a, at + 18, 4, |e.data|)
    && Field(a, at + 22, 4, |e.data|)
    && Field(a, at + 26, 2, |e.path|)
    && Literal(a, at + 28, [0x00, 0x00])
    && Literal(a, at + 30, e.path)
    && Literal(a, at + 30 + |e.path|, e.data)
  }

  /** A central directory header and the name; a directory has the DOS attribute 0x10. */
  predicate CentralSpelled(a: Bytes, at: nat, e: Entry, local: nat) {
    && Literal(a, at, [0x50, 0x4b, 0x01, 0x02, 0x14, 0x03, 0x14, 0x00])
    && Literal(a, at + 8, CommonLiteral())
    && Field(a, at + 16, 4, Crc32.Checksum(e.data) as int)
    && Field(a, at + 20, 4, |e.data|)
    && Field(a, at + 24, 4, |e.data|)
    && Field(a, at + 28, 2, |e.path|)
    && Literal(a, at + 30, [0x00, 0x00, 0x00, 0x00, 0x00, 0x00, 0x00, 0x00])
    && Literal(a, at + 38, if e.path != [] && e.path[|e.path| - 1] == 0x2f then [0x10, 0x00] else [0x00, 0x00])
    && Field(a, at + 40, 2, e.mode % 0x1_0000)
    && Field(a, at + 42, 4, local)
    && Literal(a, at + 46, e.path)
  }

  predicate EndSpelled(a: Bytes, at: nat, count: nat, size: nat, offset: nat) {
    && Literal(a, at, [0x50, 0x4b, 0x05, 0x06, 0x00, 0x00, 0x00, 0x00])
    && Field(a, at + 8, 2, count)
    && Field(a, at + 10, 2, count)
    && Field(a, at + 12, 4, size)
    && Field(a, at + 16, 4, offset)
    && Literal(a, at + 20, [0x00, 0x00])
  }

  /** Where the local record of entry i starts. */
  function LocalPlace(entries: seq<Entry>, i: nat): nat
    requires i <= |entries|
  {
    if i == 0 then 0 else LocalPlace(entries, i - 1) + 30 + |entries[i - 1].path| + |entries[i - 1].data|
  }

  function CentralPlace(entries: seq<Entry>, i: nat): nat
    requires i <= |entries|
  {
    if i == 0 then LocalPlace(entries, |entries|) else CentralPlace(entries, i - 1) + 46 + |entries[i - 1].path|
  }

  predicate RecordsSpelled(a: Bytes, entries: seq<Entry>) {
    && (forall i :: 0 <= i < |entries| ==> LocalSpelled(a, LocalPlace(entries, i), entries[i]))
    && (forall i :: 0 <= i < |entries| ==>
          CentralSpelled(a, CentralPlace(entries, i), entries[i], LocalPlace(entries, i)))
  }

  /** The archive is: local records, central records, the end record, and nothing else. */
  predicate Spelled(a: Bytes, entries: seq<Entry>) {
    var n := |entries|;
    var directory, end := LocalPlace(entries, n), CentralPlace(entries, n);
    && RecordsSpelled(a, entries)
    && directory <= end
    && EndSpelled(a, end, n, end - directory, directory)
    && |a| == end + 22
  }

  // ---------- Fields ----------

  lemma Field16(a: Bytes, at: nat, n: nat)
    ensures Field(a, at, 2, n) <==> ReadU16(a, at) == Some(n)
  {
    if at + 2 <= |a| {
      var s := a[at..at + 2];
      assert s[1..][1..] == [] && Number(s[1..]) == s[1] as int;
    }
  }

  lemma Field32(a: Bytes, at: nat, n: nat)
    ensures Field(a, at, 4, n) <==> ReadU32(a, at) == Some(n)
  {
    hide Number;
    if at + 4 <= |a| {
      var s := a[at..at + 4];
      NumberOfFour(s);
      assert s[0] == a[at] && s[1] == a[at + 1] && s[2] == a[at + 2] && s[3] == a[at + 3];
    }
  }

  lemma NumberOfFour(s: Bytes)
    requires |s| == 4
    ensures Number(s) == s[0] as int + 256 * s[1] as int + 0x1_0000 * (s[2] as int + 256 * s[3] as int)
  {
    assert Number(s[3..]) == s[3] as int by {
      assert s[3..][1..] == [];
    }
    assert s[2..][1..] == s[3..] && s[1..][1..] == s[2..];
    assert Number(s[2..]) == s[2] as int + 256 * Number(s[3..]);
    assert Number(s[1..]) == s[1] as int + 256 * Number(s[2..]);
  }

  lemma Pair(a: Bytes, at: nat, x: bv8, y: bv8)
    ensures Literal(a, at, [x, y]) <==> ReadU16(a, at) == Some(ValueOf(x) + 256 * ValueOf(y))
  {
    hide ValueOf;
    if at + 2 <= |a| {
      var s := a[at..at + 2];
      assert s[0] == a[at] && s[1] == a[at + 1];
      if ReadU16(a, at) == Some(ValueOf(x) + 256 * ValueOf(y)) {
        ValueInjective(a[at], x);
        ValueInjective(a[at + 1], y);
        assert s == [x, y];
      }
    }
  }

  lemma LiteralSplits(a: Bytes, at: nat, x: bv8, y: bv8, more: Bytes)
    ensures Literal(a, at, [x, y] + more) <==> Literal(a, at, [x, y]) && Literal(a, at + 2, more)
  {
    hide Literal, At;
    LiteralAt(a, at, [x, y]);
    LiteralAt(a, at + 2, more);
    LiteralAt(a, at, [x, y] + more);
    AtConcat(a, at, [x, y], more);
  }

  lemma LiteralAt(a: Bytes, at: nat, bytes: Bytes)
    ensures Literal(a, at, bytes) <==> At(a, at, bytes)
  {
  }

  /** Eight literal bytes, as numbers. */
  lemma FourPairs(a: Bytes, at: nat, s: Bytes)
    requires |s| == 8
    ensures Literal(a, at, s) <==>
            && ReadU16(a, at) == Some(ValueOf(s[0]) + 256 * ValueOf(s[1]))
            && ReadU16(a, at + 2) == Some(ValueOf(s[2]) + 256 * ValueOf(s[3]))
            && ReadU16(a, at + 4) == Some(ValueOf(s[4]) + 256 * ValueOf(s[5]))
            && ReadU16(a, at + 6) == Some(ValueOf(s[6]) + 256 * ValueOf(s[7]))
  {
    hide Literal, ReadU16, ValueOf;
    var s6, s4, s2 := s[6..], s[4..], s[2..];
    assert s == [s[0], s[1]] + s2 && s2 == [s[2], s[3]] + s4 && s4 == [s[4], s[5]] + s6 && s6 == [s[6], s[7]];
    LiteralSplits(a, at, s[0], s[1], s2);
    LiteralSplits(a, at + 2, s[2], s[3], s4);
    LiteralSplits(a, at + 4, s[4], s[5], s6);
    Pair(a, at, s[0], s[1]);
    Pair(a, at + 2, s[2], s[3]);
    Pair(a, at + 4, s[4], s[5]);
    Pair(a, at + 6, s[6], s[7]);
  }

  // ---------- Records ----------

  lemma CommonBytes(a: Bytes, at: nat)
    ensures CommonFieldsOk(a, at) <==> Literal(a, at, CommonLiteral())
  {
    hide ReadU16, Literal;
    FourPairs(a, at, CommonLiteral());
  }

  lemma ReadPairs(a: Bytes, at: nat, n: nat)
    requires n <= U32_MAX
    ensures ReadU32(a, at) == Some(n) <==>
            ReadU16(a, at) == Some(n % 0x1_0000) && ReadU16(a, at + 2) == Some(n / 0x1_0000)
  {
    hide ReadU16;
  }

  lemma CentralStartBytes(a: Bytes, at: nat)
    ensures At(a, at, CentralStart()) <==>
            && Literal(a, at, [0x50, 0x4b, 0x01, 0x02, 0x14, 0x03, 0x14, 0x00])
            && Literal(a, at + 8, CommonLiteral())
  {
    hide ReadU16, ReadU32, Literal, At, CommonFieldsOk, CommonLiteral, CentralStart;
    CentralStartAt(a, at);
    CommonBytes(a, at + 8);
    FourPairs(a, at, [0x50, 0x4b, 0x01, 0x02, 0x14, 0x03, 0x14, 0x00]);
    ReadPairs(a, at, CENTRAL_SIGNATURE);
  }

  lemma LocalStartBytes(a: Bytes, at: nat)
    ensures At(a, at, LocalStart()) <==>
            Literal(a, at, [0x50, 0x4b, 0x03, 0x04, 0x14, 0x00]) && Literal(a, at + 6, CommonLiteral())
  {
    hide ReadU16, ReadU32, Literal, At, CommonFieldsOk, CommonLiteral, LocalStart;
    var tail: Bytes := [0x03, 0x04, 0x14, 0x00];
    assert [0x50, 0x4b, 0x03, 0x04, 0x14, 0x00] == [0x50, 0x4b] + tail && tail == [0x03, 0x04] + [0x14, 0x00];
    LocalStartAt(a, at);
    CommonBytes(a, at + 6);
    LiteralSplits(a, at, 0x50, 0x4b, tail);
    LiteralSplits(a, at + 2, 0x03, 0x04, [0x14, 0x00]);
    Pair(a, at, 0x50, 0x4b);
    Pair(a, at + 2, 0x03, 0x04);
    Pair(a, at + 4, 0x14, 0x00);
    ReadPairs(a, at, LOCAL_SIGNATURE);
  }

  lemma SizeBytes(a: Bytes, at: nat, e: Entry)
    requires |e.data| <= U32_MAX
    ensures At(a, at, SizeFields(Crc(e.data), |e.data|)) <==>
            && Field(a, at, 4, Crc32.Checksum(e.data) as int)
            && Field(a, at + 4, 4, |e.data|)
            && Field(a, at + 8, 4, |e.data|)
  {
    hide ReadU32, Field, At, SizeFields;
    SizesAt(a, at, Crc(e.data), |e.data|);
    Field32(a, at, Crc(e.data));
    Field32(a, at + 4, |e.data|);
    Field32(a, at + 8, |e.data|);
  }

  lemma LengthBytes(a: Bytes, at: nat, n: nat)
    requires n <= U16_MAX
    ensures At(a, at, CentralLengths(n)) <==>
            Field(a, at, 2, n) && Literal(a, at + 2, [0x00, 0x00, 0x00, 0x00, 0x00, 0x00, 0x00, 0x00])
  {
    hide ReadU16, Field, At, Literal, CentralLengths;
    CentralLengthsAt(a, at, n);
    Field16(a, at, n);
    FourPairs(a, at + 2, [0x00, 0x00, 0x00, 0x00, 0x00, 0x00, 0x00, 0x00]);
  }

  lemma AttributeBytes(a: Bytes, at: nat, e: Entry)
    ensures ReadU32(a, at) == Some(ExternalAttributes(e.path, e.mode)) <==>
            && Literal(a, at, if e.path != [] && e.path[|e.path| - 1] == 0x2f then [0x10, 0x00] else [0x00, 0x00])
            && Field(a, at + 2, 2, e.mode % 0x1_0000)
  {
    hide ReadU16, ReadU32, Literal, Field;
    ReadPairs(a, at, ExternalAttributes(e.path, e.mode));
    Pair(a, at, 0x10, 0x00);
    Pair(a, at, 0x00, 0x00);
    Field16(a, at + 2, e.mode % 0x1_0000);
  }

  lemma CentralBytes(a: Bytes, at: nat, e: Entry, local: nat)
    requires EntryFits(e) && local <= U32_MAX
    ensures At(a, at, CentralRecord(e, local)) <==> CentralSpelled(a, at, e, local)
  {
    hide At, Literal, Field, CommonLiteral, Crc, ExternalAttributes, ReadU32;
    hide CentralHeader, CentralStart, SizeFields, CentralLengths;
    var attributes := ExternalAttributes(e.path, e.mode);
    AtConcat(a, at, CentralHeader(Crc(e.data), |e.data|, |e.path|, attributes, local), e.path);
    CentralHeaderAt(a, at, Crc(e.data), |e.data|, |e.path|, attributes, local);
    CentralStartBytes(a, at);
    SizeBytes(a, at + 16, e);
    LengthBytes(a, at + 28, |e.path|);
    AttributeBytes(a, at + 38, e);
    Field32(a, at + 42, local);
    LiteralAt(a, at + 46, e.path);
  }

  lemma LocalBytes(a: Bytes, at: nat, e: Entry)
    requires EntryFits(e)
    ensures At(a, at, LocalRecord(e)) <==> LocalSpelled(a, at, e)
  {
    hide At, Literal, Field, CommonLiteral, Crc, ReadU16;
    hide LocalHeader, LocalStart, SizeFields;
    var header := LocalHeader(Crc(e.data), |e.data|, |e.path|);
    AtConcat(a, at, header + e.path, e.data);
    AtConcat(a, at, header, e.path);
    LocalHeaderAt(a, at, Crc(e.data), |e.data|, |e.path|);
    LocalStartBytes(a, at);
    SizeBytes(a, at + 14, e);
    Field16(a, at + 26, |e.path|);
    Pair(a, at + 28, 0x00, 0x00);
    LiteralAt(a, at + 30, e.path);
    LiteralAt(a, at + 30 + |e.path|, e.data);
  }

  lemma EndBytes(a: Bytes, at: nat, count: nat, size: nat, offset: nat)
    requires count <= U16_MAX && size <= U32_MAX && offset <= U32_MAX
    ensures At(a, at, EndRecord(count, size, offset)) <==> EndSpelled(a, at, count, size, offset)
  {
    hide At, Literal, Field, ReadU16, ReadU32, EndRecord;
    EndRecordAt(a, at, count, size, offset);
    FourPairs(a, at, [0x50, 0x4b, 0x05, 0x06, 0x00, 0x00, 0x00, 0x00]);
    ReadPairs(a, at, END_SIGNATURE);
    Field16(a, at + 8, count);
    Field16(a, at + 10, count);
    Field32(a, at + 12, size);
    Field32(a, at + 16, offset);
    Pair(a, at + 20, 0x00, 0x00);
  }

  // ---------- Regions ----------

  ghost predicate LocalsStand(a: Bytes, entries: seq<Entry>, i: nat)
    requires i <= |entries|
  {
    forall k :: 0 <= k < i ==> At(a, LocalPlace(entries, k), LocalRecord(entries[k]))
  }

  ghost predicate CentralsStand(a: Bytes, entries: seq<Entry>, i: nat)
    requires i <= |entries|
  {
    forall k :: 0 <= k < i ==> At(a, CentralPlace(entries, k), CentralRecord(entries[k], LocalPlace(entries, k)))
  }

  lemma OneMoreStands(a: Bytes, entries: seq<Entry>, i: nat)
    requires i < |entries|
    ensures LocalsStand(a, entries, i + 1) <==>
            LocalsStand(a, entries, i) && At(a, LocalPlace(entries, i), LocalRecord(entries[i]))
    ensures CentralsStand(a, entries, i + 1) <==>
            && CentralsStand(a, entries, i)
            && At(a, CentralPlace(entries, i), CentralRecord(entries[i], LocalPlace(entries, i)))
  {
    hide At, LocalRecord, CentralRecord, LocalPlace, CentralPlace;
  }

  lemma NoneStands(a: Bytes, entries: seq<Entry>)
    ensures LocalsStand(a, entries, 0) && CentralsStand(a, entries, 0)
  {
  }

  lemma {:induction false} LocalsPlaced(a: Bytes, entries: seq<Entry>, i: nat)
    requires i <= |entries|
    ensures |Locals(entries[..i])| == LocalPlace(entries, i)
    ensures At(a, 0, Locals(entries[..i])) <==> LocalsStand(a, entries, i)
  {
    hide At, Locals, LocalsStand, CentralsStand;
    if i == 0 {
      ZipWriter.NoRecords(entries);
      NoneStands(a, entries);
      ZipParse.NothingAt(a, 0);
    } else {
      LocalsPlaced(a, entries, i - 1);
      NextLocal(a, entries, i - 1);
    }
  }

  lemma NextLocal(a: Bytes, entries: seq<Entry>, i: nat)
    requires i < |entries| && |Locals(entries[..i])| == LocalPlace(entries, i)
    requires At(a, 0, Locals(entries[..i])) <==> LocalsStand(a, entries, i)
    ensures |Locals(entries[..i + 1])| == LocalPlace(entries, i + 1)
    ensures At(a, 0, Locals(entries[..i + 1])) <==> LocalsStand(a, entries, i + 1)
  {
    hide At, Locals, Centrals, LocalRecord, CentralRecord, LocalsStand, CentralsStand;
    var so, record := Locals(entries[..i]), LocalRecord(entries[i]);
    ZipWriter.NextRecord(entries, i);
    OneMoreStands(a, entries, i);
    AtConcat(a, 0, so, record);
  }

  lemma {:induction false} CentralsPlaced(a: Bytes, entries: seq<Entry>, i: nat)
    requires i <= |entries|
    ensures |Centrals(entries[..i])| + LocalPlace(entries, |entries|) == CentralPlace(entries, i)
    ensures LocalPlace(entries, |entries|) <= |a| ==>
            (At(a, LocalPlace(entries, |entries|), Centrals(entries[..i])) <==> CentralsStand(a, entries, i))
  {
    hide At, Centrals, LocalPlace, LocalsStand, CentralsStand;
    if i == 0 {
      ZipWriter.NoRecords(entries);
      NoneStands(a, entries);
      ZipParse.NothingAt(a, LocalPlace(entries, |entries|));
    } else {
      CentralsPlaced(a, entries, i - 1);
      NextCentral(a, entries, i - 1);
    }
  }

  lemma NextCentral(a: Bytes, entries: seq<Entry>, i: nat)
    requires i < |entries| && |Centrals(entries[..i])| + LocalPlace(entries, |entries|) == CentralPlace(entries, i)
    requires LocalPlace(entries, |entries|) <= |a| ==>
             (At(a, LocalPlace(entries, |entries|), Centrals(entries[..i])) <==> CentralsStand(a, entries, i))
    ensures |Centrals(entries[..i + 1])| + LocalPlace(entries, |entries|) == CentralPlace(entries, i + 1)
    ensures LocalPlace(entries, |entries|) <= |a| ==>
            (At(a, LocalPlace(entries, |entries|), Centrals(entries[..i + 1])) <==> CentralsStand(a, entries, i + 1))
  {
    hide At, Locals, Centrals, LocalRecord, CentralRecord, LocalsStand, CentralsStand, LocalPlace;
    var so, record := Centrals(entries[..i]), CentralRecord(entries[i], LocalPlace(entries, i));
    LocalsPlaced(a, entries, i);
    ZipWriter.NextRecord(entries, i);
    OneMoreStands(a, entries, i);
    AtConcat(a, LocalPlace(entries, |entries|), so, record);
  }

  lemma LayoutParts(a: Bytes, locals: Bytes, centrals: Bytes, end: Bytes)
    ensures a == locals + centrals + end <==>
            && At(a, 0, locals) && At(a, |locals|, centrals) && At(a, |locals| + |centrals|, end)
            && |a| == |locals| + |centrals| + |end|
  {
    AtConcat(a, 0, locals + centrals, end);
    AtConcat(a, 0, locals, centrals);
    if |a| == |locals| + |centrals| + |end| {
      assert a[0..0 + |locals + centrals + end|] == a;
    }
  }

  lemma RecordsBytes(a: Bytes, entries: seq<Entry>)
    requires (forall i :: 0 <= i < |entries| ==> EntryFits(entries[i])) && LocalPlace(entries, |entries|) <= U32_MAX
    ensures RecordsSpelled(a, entries) <==>
            LocalsStand(a, entries, |entries|) && CentralsStand(a, entries, |entries|)
  {
    hide At, LocalRecord, CentralRecord, LocalSpelled, CentralSpelled, EntryFits, LocalPlace, CentralPlace;
    forall i | 0 <= i < |entries|
      ensures At(a, LocalPlace(entries, i), LocalRecord(entries[i])) <==>
              LocalSpelled(a, LocalPlace(entries, i), entries[i])
      ensures At(a, CentralPlace(entries, i), CentralRecord(entries[i], LocalPlace(entries, i))) <==>
              CentralSpelled(a, CentralPlace(entries, i), entries[i], LocalPlace(entries, i))
    {
      PlacesRise(entries, i, |entries|);
      LocalBytes(a, LocalPlace(entries, i), entries[i]);
      CentralBytes(a, CentralPlace(entries, i), entries[i], LocalPlace(entries, i));
    }
  }

  /** The layout is the spelling: what encode_zip writes and parse_zip accepts, with nothing left open. */
  lemma SpelledExactly(a: Bytes, entries: seq<Entry>)
    requires EntriesFit(entries) && |Locals(entries)| <= U32_MAX && |Centrals(entries)| <= U32_MAX
    ensures a == Layout(entries) <==> Spelled(a, entries)
  {
    hide At, EndRecord, Locals, Centrals, LocalSpelled, CentralSpelled, EndSpelled, EntryFits, LocalPlace, CentralPlace;
    hide LocalsStand, CentralsStand, RecordsSpelled;
    var n := |entries|;
    var directory, end := LocalPlace(entries, n), CentralPlace(entries, n);
    assert entries[..n] == entries;
    LocalsPlaced(a, entries, n);
    CentralsPlaced(a, entries, n);
    RecordsBytes(a, entries);
    EndBytes(a, end, n, end - directory, directory);
    LayoutParts(a, Locals(entries), Centrals(entries), EndRecord(n, |Centrals(entries)|, |Locals(entries)|));
  }

  lemma {:induction false} PlacesRise(entries: seq<Entry>, i: nat, n: nat)
    requires i <= n <= |entries|
    ensures LocalPlace(entries, i) <= LocalPlace(entries, n)
  {
    if i < n {
      PlacesRise(entries, i, n - 1);
    }
  }
}
