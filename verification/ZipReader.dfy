/** parse_zip: the two-cursor reader that accepts only canonical bytes. */
module ZipReader {
  import opened Wrappers
  import opened Bytes
  import opened ZipFormat
  import ArchivePath

  datatype Central = Central(path: Bytes, mode: nat, crc: nat, size: nat, next: nat)

  datatype ParsedEntry = ParsedEntry(path: Bytes, mode: nat, dataStart: nat, dataEnd: nat)

  /** validate_common_zip_fields. */
  predicate CommonFieldsOk(a: Bytes, offset: nat) {
    && ReadU16(a, offset) == Some(UTF8_FLAG)
    && ReadU16(a, offset + 2) == Some(STORED)
    && ReadU16(a, offset + 4) == Some(DOS_TIME)
    && ReadU16(a, offset + 6) == Some(DOS_DATE)
  }

  /** validate_archive_mode: `mode & 0o170000` is the top four bits of a 16-bit mode. */
  predicate ModeOk(path: Bytes, mode: nat, attributes: nat) {
    var isDirectory := ArchivePath.EndsWithSlash(path);
    && attributes == ExternalAttributes(path, mode)
    && var kind := mode / 0x1000 % 0x10;
       if kind == 0x4 && isDirectory then
         mode == 0x41ed
       else if kind == 0x8 && !isDirectory then
         mode == 0x81a4 || mode == 0x81ed
       else if kind == 0xa && !isDirectory then
         mode == 0xa1ff
       else
         false
  }

  /** The central half of one turn of the loop. */
  function ReadCentral(a: Bytes, cursor: nat, localCursor: nat, directoryEnd: nat, seen: set<Bytes>): Option<Central> {
    if !(&& ReadU32(a, cursor) == Some(CENTRAL_SIGNATURE)
         && ReadU16(a, cursor + 4) == Some(VERSION_MADE_BY_UNIX)
         && ReadU16(a, cursor + 6) == Some(VERSION)
         && CommonFieldsOk(a, cursor + 8)) then None else
    var crc :- ReadU32(a, cursor + 16);
    var compressedSize :- ReadU32(a, cursor + 20);
    var uncompressedSize :- ReadU32(a, cursor + 24);
    if compressedSize != uncompressedSize then None else
    var nameLength :- ReadU16(a, cursor + 28);
    var extraLength :- ReadU16(a, cursor + 30);
    var commentLength :- ReadU16(a, cursor + 32);
    if extraLength != 0 || commentLength != 0 then None else
    if ReadU16(a, cursor + 34) != Some(0) || ReadU16(a, cursor + 36) != Some(0) then None else
    var attributes :- ReadU32(a, cursor + 38);
    var mode := attributes / 0x1_0000;
    var localOffset :- ReadU32(a, cursor + 42);
    if localOffset != localCursor then None else
    var nameEnd := cursor + 46 + nameLength;
    if nameEnd > |a| || nameEnd > directoryEnd then None else
    var path := a[cursor + 46..nameEnd];
    if ArchivePath.IsUtf8(path) && ArchivePath.Accepts(path) && path !in seen && ModeOk(path, mode, attributes) then
      Some(Central(path, mode, crc, compressedSize, nameEnd))
    else
      None
  }

  /** The local half of one turn of the loop: where the data starts. */
  function ReadLocal(a: Bytes, offset: nat, directoryOffset: nat, central: Central): Option<nat> {
    if !(&& ReadU32(a, offset) == Some(LOCAL_SIGNATURE)
         && ReadU16(a, offset + 4) == Some(VERSION)
         && CommonFieldsOk(a, offset + 6)
         && ReadU32(a, offset + 14) == Some(central.crc)
         && ReadU32(a, offset + 18) == Some(central.size)
         && ReadU32(a, offset + 22) == Some(central.size)) then None else
    var nameLength :- ReadU16(a, offset + 26);
    if ReadU16(a, offset + 28) != Some(0) then None else
    var nameEnd := offset + 30 + nameLength;
    if nameEnd > |a| || a[offset + 30..nameEnd] != central.path then None else
    var dataEnd := nameEnd + central.size;
    if dataEnd > |a| || dataEnd > directoryOffset then None else
    if Crc(a[nameEnd..dataEnd]) != central.crc then None else
    if ArchivePath.EndsWithSlash(central.path) && nameEnd != dataEnd then None else
    Some(nameEnd)
  }

  // ---------- Each record reader accepts exactly the bytes of its record ----------

  lemma CommonAt(a: Bytes, offset: nat)
    ensures At(a, offset, CommonFields()) <==> CommonFieldsOk(a, offset)
  {
    hide At, LE16, ReadU16;
    ReadU16At(a, offset, UTF8_FLAG);
    ReadU16At(a, offset + 2, STORED);
    ReadU16At(a, offset + 4, DOS_TIME);
    ReadU16At(a, offset + 6, DOS_DATE);
    AtConcat(a, offset, LE16(UTF8_FLAG) + LE16(STORED) + LE16(DOS_TIME), LE16(DOS_DATE));
    AtConcat(a, offset, LE16(UTF8_FLAG) + LE16(STORED), LE16(DOS_TIME));
    AtConcat(a, offset, LE16(UTF8_FLAG), LE16(STORED));
  }

  lemma SizesAt(a: Bytes, offset: nat, crc: nat, size: nat)
    requires crc <= U32_MAX && size <= U32_MAX
    ensures At(a, offset, SizeFields(crc, size)) <==>
            && ReadU32(a, offset) == Some(crc)
            && ReadU32(a, offset + 4) == Some(size)
            && ReadU32(a, offset + 8) == Some(size)
  {
    hide At, LE32, ReadU32;
    ReadU32At(a, offset, crc);
    ReadU32At(a, offset + 4, size);
    ReadU32At(a, offset + 8, size);
    AtConcat(a, offset, LE32(crc) + LE32(size), LE32(size));
    AtConcat(a, offset, LE32(crc), LE32(size));
  }

  lemma CentralStartAt(a: Bytes, offset: nat)
    ensures At(a, offset, CentralStart()) <==>
            && ReadU32(a, offset) == Some(CENTRAL_SIGNATURE)
            && ReadU16(a, offset + 4) == Some(VERSION_MADE_BY_UNIX)
            && ReadU16(a, offset + 6) == Some(VERSION)
            && CommonFieldsOk(a, offset + 8)
  {
    hide At, LE16, LE32, ReadU16, ReadU32, CommonFields, CommonFieldsOk;
    ReadU32At(a, offset, CENTRAL_SIGNATURE);
    ReadU16At(a, offset + 4, VERSION_MADE_BY_UNIX);
    ReadU16At(a, offset + 6, VERSION);
    CommonAt(a, offset + 8);
    AtConcat(a, offset, LE32(CENTRAL_SIGNATURE) + LE16(VERSION_MADE_BY_UNIX) + LE16(VERSION), CommonFields());
    AtConcat(a, offset, LE32(CENTRAL_SIGNATURE) + LE16(VERSION_MADE_BY_UNIX), LE16(VERSION));
    AtConcat(a, offset, LE32(CENTRAL_SIGNATURE), LE16(VERSION_MADE_BY_UNIX));
  }

  lemma CentralLengthsAt(a: Bytes, offset: nat, nameLength: nat)
    requires nameLength <= U16_MAX
    ensures At(a, offset, CentralLengths(nameLength)) <==>
            && ReadU16(a, offset) == Some(nameLength)
            && ReadU16(a, offset + 2) == Some(0)
            && ReadU16(a, offset + 4) == Some(0)
            && ReadU16(a, offset + 6) == Some(0)
            && ReadU16(a, offset + 8) == Some(0)
  {
    hide At, LE16, ReadU16;
    ReadU16At(a, offset, nameLength);
    ReadU16At(a, offset + 2, 0);
    ReadU16At(a, offset + 4, 0);
    ReadU16At(a, offset + 6, 0);
    ReadU16At(a, offset + 8, 0);
    AtConcat(a, offset, LE16(nameLength) + LE16(0) + LE16(0) + LE16(0), LE16(0));
    AtConcat(a, offset, LE16(nameLength) + LE16(0) + LE16(0), LE16(0));
    AtConcat(a, offset, LE16(nameLength) + LE16(0), LE16(0));
    AtConcat(a, offset, LE16(nameLength), LE16(0));
  }

  lemma CentralHeaderAt(a: Bytes, offset: nat, crc: nat, size: nat, nameLength: nat, attributes: nat, local: nat)
    requires crc <= U32_MAX && size <= U32_MAX && nameLength <= U16_MAX && attributes <= U32_MAX && local <= U32_MAX
    ensures At(a, offset, CentralHeader(crc, size, nameLength, attributes, local)) <==>
            && At(a, offset, CentralStart())
            && At(a, offset + 16, SizeFields(crc, size))
            && At(a, offset + 28, CentralLengths(nameLength))
            && ReadU32(a, offset + 38) == Some(attributes)
            && ReadU32(a, offset + 42) == Some(local)
  {
    hide At, LE32, ReadU32, CentralStart, SizeFields, CentralLengths;
    ReadU32At(a, offset + 38, attributes);
    ReadU32At(a, offset + 42, local);
    var tail := LE32(attributes) + LE32(local);
    AtConcat(a, offset, CentralStart() + SizeFields(crc, size) + CentralLengths(nameLength), tail);
    AtConcat(a, offset, CentralStart() + SizeFields(crc, size), CentralLengths(nameLength));
    AtConcat(a, offset, CentralStart(), SizeFields(crc, size));
    AtConcat(a, offset + 38, LE32(attributes), LE32(local));
  }

  lemma LegalModes(path: Bytes, mode: nat)
    ensures ModeOk(path, mode, ExternalAttributes(path, mode)) <==> LegalMode(path, mode)
  {
    hide ExternalAttributes;
  }

  /** ReadCentral accepts exactly the canonical central record of an acceptable name and mode. */
  lemma ReadCentralExact(a: Bytes, cursor: nat, localCursor: nat, directoryEnd: nat, seen: set<Bytes>, c: Central)
    requires c.crc <= U32_MAX && c.size <= U32_MAX && |c.path| <= U16_MAX && localCursor <= U32_MAX
    requires c.next == cursor + 46 + |c.path| && c.mode <= U16_MAX
    ensures ReadCentral(a, cursor, localCursor, directoryEnd, seen) == Some(c) <==>
            && At(a, cursor,
                  CentralHeader(c.crc, c.size, |c.path|, ExternalAttributes(c.path, c.mode), localCursor) + c.path)
            && c.next <= directoryEnd
            && ArchivePath.IsUtf8(c.path) && ArchivePath.Accepts(c.path) && c.path !in seen
            && LegalMode(c.path, c.mode)
  {
    hide ReadU16, ReadU32, CommonFieldsOk, CentralHeader, CentralStart, SizeFields, CentralLengths;
    hide ArchivePath.IsUtf8, ArchivePath.Accepts, ModeOk, LegalMode, ExternalAttributes;
    var attributes := ExternalAttributes(c.path, c.mode);
    AtConcat(a, cursor, CentralHeader(c.crc, c.size, |c.path|, attributes, localCursor), c.path);
    CentralHeaderAt(a, cursor, c.crc, c.size, |c.path|, attributes, localCursor);
    CentralStartAt(a, cursor);
    SizesAt(a, cursor + 16, c.crc, c.size);
    CentralLengthsAt(a, cursor + 28, |c.path|);
    LegalModes(c.path, c.mode);
    ModeFixesAttributes(c.path);
  }

  lemma ModeFixesAttributes(path: Bytes)
    ensures forall mode, attributes :: ModeOk(path, mode, attributes) ==> attributes == ExternalAttributes(path, mode)
  {
  }

  lemma ReadCentralRange(a: Bytes, cursor: nat, localCursor: nat, directoryEnd: nat, seen: set<Bytes>)
    ensures var r := ReadCentral(a, cursor, localCursor, directoryEnd, seen);
            r.Some? ==>
              && r.value.crc <= U32_MAX && r.value.size <= U32_MAX && |r.value.path| <= U16_MAX
              && localCursor <= U32_MAX
              && r.value.next == cursor + 46 + |r.value.path| && r.value.mode <= U16_MAX
  {
    hide ReadU16, ReadU32, CommonFieldsOk, ArchivePath.IsUtf8, ArchivePath.Accepts, ModeOk;
  }

  lemma LocalStartAt(a: Bytes, offset: nat)
    ensures At(a, offset, LocalStart()) <==>
            && ReadU32(a, offset) == Some(LOCAL_SIGNATURE)
            && ReadU16(a, offset + 4) == Some(VERSION)
            && CommonFieldsOk(a, offset + 6)
  {
    hide At, LE16, LE32, ReadU16, ReadU32, CommonFields, CommonFieldsOk;
    ReadU32At(a, offset, LOCAL_SIGNATURE);
    ReadU16At(a, offset + 4, VERSION);
    CommonAt(a, offset + 6);
    AtConcat(a, offset, LE32(LOCAL_SIGNATURE) + LE16(VERSION), CommonFields());
    AtConcat(a, offset, LE32(LOCAL_SIGNATURE), LE16(VERSION));
  }

  lemma LocalHeaderAt(a: Bytes, offset: nat, crc: nat, size: nat, nameLength: nat)
    requires crc <= U32_MAX && size <= U32_MAX && nameLength <= U16_MAX
    ensures At(a, offset, LocalHeader(crc, size, nameLength)) <==>
            && At(a, offset, LocalStart())
            && At(a, offset + 14, SizeFields(crc, size))
            && ReadU16(a, offset + 26) == Some(nameLength)
            && ReadU16(a, offset + 28) == Some(0)
  {
    hide At, LE16, ReadU16, LocalStart, SizeFields;
    ReadU16At(a, offset + 26, nameLength);
    ReadU16At(a, offset + 28, 0);
    AtConcat(a, offset, LocalStart() + SizeFields(crc, size), LE16(nameLength) + LE16(0));
    AtConcat(a, offset, LocalStart(), SizeFields(crc, size));
    AtConcat(a, offset + 26, LE16(nameLength), LE16(0));
  }

  /** ReadLocal accepts exactly a local record with the central record's name, size and checksum. */
  lemma ReadLocalExact(a: Bytes, offset: nat, directoryOffset: nat, c: Central)
    requires c.crc <= U32_MAX && c.size <= U32_MAX && |c.path| <= U16_MAX
    ensures var start := offset + 30 + |c.path|;
            ReadLocal(a, offset, directoryOffset, c) ==
            if && At(a, offset, LocalHeader(c.crc, c.size, |c.path|) + c.path)
               && start + c.size <= |a| && start + c.size <= directoryOffset
               && Crc(a[start..start + c.size]) == c.crc
               && (ArchivePath.EndsWithSlash(c.path) ==> c.size == 0)
            then Some(start) else None
  {
    hide ReadU16, ReadU32, CommonFieldsOk, LocalHeader, LocalStart, SizeFields, Crc, ArchivePath.EndsWithSlash;
    AtConcat(a, offset, LocalHeader(c.crc, c.size, |c.path|), c.path);
    LocalHeaderAt(a, offset, c.crc, c.size, |c.path|);
    LocalStartAt(a, offset);
    SizesAt(a, offset + 14, c.crc, c.size);
  }

  // ---------- One turn of the loop ----------

  datatype Turn = Turn(entry: ParsedEntry, next: nat)

  function ReadEntry(a: Bytes, cursor: nat, localCursor: nat, directoryOffset: nat, directoryEnd: nat,
                     seen: set<Bytes>): Option<Turn>
  {
    var central :- ReadCentral(a, cursor, localCursor, directoryEnd, seen);
    var dataStart :- ReadLocal(a, localCursor, directoryOffset, central);
    Some(Turn(ParsedEntry(central.path, central.mode, dataStart, dataStart + central.size), central.next))
  }

  /** The entry can be what the two cursors point at. */
  ghost predicate EntryHere(a: Bytes, cursor: nat, localCursor: nat, directoryOffset: nat, directoryEnd: nat,
                            seen: set<Bytes>, e: Entry)
  {
    && ValidEntry(e) && EntryFits(e) && e.path !in seen && localCursor <= U32_MAX
    && At(a, cursor, CentralRecord(e, localCursor))
    && At(a, localCursor, LocalRecord(e))
    && cursor + 46 + |e.path| <= directoryEnd
    && localCursor + 30 + |e.path| + |e.data| <= directoryOffset
  }

  function TurnOf(cursor: nat, localCursor: nat, e: Entry): Turn {
    var start := localCursor + 30 + |e.path|;
    Turn(ParsedEntry(e.path, e.mode, start, start + |e.data|), cursor + 46 + |e.path|)
  }

  lemma ReadEntryComplete(a: Bytes, cursor: nat, localCursor: nat, directoryOffset: nat, directoryEnd: nat,
                          seen: set<Bytes>, e: Entry)
    requires EntryHere(a, cursor, localCursor, directoryOffset, directoryEnd, seen, e)
    ensures ReadEntry(a, cursor, localCursor, directoryOffset, directoryEnd, seen) ==
      Some(TurnOf(cursor, localCursor, e))
  {
    hide ReadCentral, ReadLocal, CentralHeader, LocalHeader, Crc, ExternalAttributes;
    hide ArchivePath.IsUtf8, ArchivePath.Accepts;
    var c := Central(e.path, e.mode, Crc(e.data), |e.data|, cursor + 46 + |e.path|);
    ReadCentralExact(a, cursor, localCursor, directoryEnd, seen, c);
    ReadLocalExact(a, localCursor, directoryOffset, c);
    var header := LocalHeader(c.crc, c.size, |c.path|);
    AtConcat(a, localCursor, header + e.path, e.data);
  }

  lemma ReadEntrySound(a: Bytes, cursor: nat, localCursor: nat, directoryOffset: nat, directoryEnd: nat,
                       seen: set<Bytes>, turn: Turn)
    requires ReadEntry(a, cursor, localCursor, directoryOffset, directoryEnd, seen) == Some(turn)
    ensures turn.entry.dataStart <= turn.entry.dataEnd <= |a|
    ensures var e := Entry(turn.entry.path, turn.entry.mode, a[turn.entry.dataStart..turn.entry.dataEnd]);
            && EntryHere(a, cursor, localCursor, directoryOffset, directoryEnd, seen, e)
            && turn == TurnOf(cursor, localCursor, e)
  {
    hide ReadCentral, ReadLocal, CentralHeader, LocalHeader, Crc, ExternalAttributes;
    hide ArchivePath.IsUtf8, ArchivePath.Accepts;
    ReadCentralRange(a, cursor, localCursor, directoryEnd, seen);
    var c := ReadCentral(a, cursor, localCursor, directoryEnd, seen).value;
    ReadCentralExact(a, cursor, localCursor, directoryEnd, seen, c);
    ReadLocalExact(a, localCursor, directoryOffset, c);
    var data := a[turn.entry.dataStart..turn.entry.dataEnd];
    AtConcat(a, localCursor, LocalHeader(c.crc, c.size, |c.path|) + c.path, data);
  }

  // ---------- The end record ----------

  datatype Directory = Directory(count: nat, offset: nat, size: nat)

  function ReadEnd(a: Bytes): Option<Directory> {
    if |a| < END_RECORD_LENGTH then None else
    var end := |a| - END_RECORD_LENGTH;
    if ReadU32(a, end) != Some(END_SIGNATURE) then None else
    if ReadU16(a, end + 4) != Some(0) || ReadU16(a, end + 6) != Some(0) then None else
    var countOnDisk :- ReadU16(a, end + 8);
    var count :- ReadU16(a, end + 10);
    if countOnDisk != count then None else
    var size :- ReadU32(a, end + 12);
    var offset :- ReadU32(a, end + 16);
    if ReadU16(a, end + 20) != Some(0) then None else
    if offset + size != end then None else
    Some(Directory(count, offset, size))
  }

  lemma EndRecordAt(a: Bytes, at: nat, count: nat, size: nat, offset: nat)
    requires count <= U16_MAX && size <= U32_MAX && offset <= U32_MAX
    ensures At(a, at, EndRecord(count, size, offset)) <==>
            && ReadU32(a, at) == Some(END_SIGNATURE)
            && ReadU16(a, at + 4) == Some(0)
            && ReadU16(a, at + 6) == Some(0)
            && ReadU16(a, at + 8) == Some(count)
            && ReadU16(a, at + 10) == Some(count)
            && ReadU32(a, at + 12) == Some(size)
            && ReadU32(a, at + 16) == Some(offset)
            && ReadU16(a, at + 20) == Some(0)
  {
    hide At, LE16, LE32, ReadU16, ReadU32;
    var p1 := LE32(END_SIGNATURE) + LE16(0);
    var p2 := p1 + LE16(0);
    var p3 := p2 + LE16(count);
    var p4 := p3 + LE16(count);
    var p5 := p4 + LE32(size);
    var p6 := p5 + LE32(offset);
    AtConcat(a, at, p6, LE16(0));
    AtConcat(a, at, p5, LE32(offset));
    AtConcat(a, at, p4, LE32(size));
    AtConcat(a, at, p3, LE16(count));
    AtConcat(a, at, p2, LE16(count));
    AtConcat(a, at, p1, LE16(0));
    AtConcat(a, at, LE32(END_SIGNATURE), LE16(0));
    ReadU32At(a, at, END_SIGNATURE);
    ReadU16At(a, at + 4, 0);
    ReadU16At(a, at + 6, 0);
    ReadU16At(a, at + 8, count);
    ReadU16At(a, at + 10, count);
    ReadU32At(a, at + 12, size);
    ReadU32At(a, at + 16, offset);
    ReadU16At(a, at + 20, 0);
  }

  lemma ReadEndExact(a: Bytes, d: Directory)
    requires d.count <= U16_MAX && d.size <= U32_MAX && d.offset <= U32_MAX
    ensures ReadEnd(a) == Some(d) <==>
            d.offset + d.size + END_RECORD_LENGTH == |a| &&
              At(a, d.offset + d.size, EndRecord(d.count, d.size, d.offset))
  {
    hide At, ReadU16, ReadU32, EndRecord;
    if |a| >= END_RECORD_LENGTH {
      EndRecordAt(a, |a| - END_RECORD_LENGTH, d.count, d.size, d.offset);
    }
  }

  lemma ReadEndRange(a: Bytes)
    ensures var r := ReadEnd(a);
            r.Some? ==> r.value.count <= U16_MAX && r.value.size <= U32_MAX && r.value.offset <= U32_MAX
  {
    hide ReadU16, ReadU32;
  }
}
