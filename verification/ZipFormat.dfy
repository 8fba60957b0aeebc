/**
 The canonical source bundle layout: stored-only ZIP32 records (sections 4.3.7, 4.3.12 and
 4.3.16 of the PKWARE APPNOTE) with fixed versions, flags, dates and attributes.
 */
module ZipFormat {
  import opened Bytes
  import ArchivePath
  import Crc32

  const LOCAL_SIGNATURE: nat := 0x0403_4b50
  const CENTRAL_SIGNATURE: nat := 0x0201_4b50
  const END_SIGNATURE: nat := 0x0605_4b50
  const VERSION: nat := 20
  const VERSION_MADE_BY_UNIX: nat := 0x314
  const UTF8_FLAG: nat := 0x800
  const STORED: nat := 0
  const DOS_TIME: nat := 0
  const DOS_DATE: nat := 33
  const END_RECORD_LENGTH: nat := 22

  /** ZipEntryData: an archive path, a Unix mode and the stored content. */
  datatype Entry = Entry(path: Bytes, mode: nat, data: Bytes)

  function Crc(data: Bytes): (crc: nat)
    ensures crc <= U32_MAX
  {
    Crc32.Checksum(data) as int
  }

  /** `(mode << 16) | dos` in 32-bit arithmetic: the shift drops the high half of the mode. */
  function ExternalAttributes(path: Bytes, mode: nat): (attributes: nat)
    ensures attributes <= U32_MAX
    ensures attributes / 0x1_0000 == mode % 0x1_0000
  {
    mode % 0x1_0000 * 0x1_0000 + if ArchivePath.EndsWithSlash(path) then 0x10 else 0
  }

  function CommonFields(): (bytes: Bytes)
    ensures |bytes| == 8
  {
    LE16(UTF8_FLAG) + LE16(STORED) + LE16(DOS_TIME) + LE16(DOS_DATE)
  }

  function SizeFields(crc: nat, size: nat): (bytes: Bytes)
    ensures |bytes| == 12
  {
    LE32(crc) + LE32(size) + LE32(size)
  }

  function LocalStart(): (bytes: Bytes)
    ensures |bytes| == 14
  {
    LE32(LOCAL_SIGNATURE) + LE16(VERSION) + CommonFields()
  }

  function LocalHeader(crc: nat, size: nat, nameLength: nat): (bytes: Bytes)
    ensures |bytes| == 30
  {
    LocalStart() + SizeFields(crc, size) + (LE16(nameLength) + LE16(0))
  }

  function CentralStart(): (bytes: Bytes)
    ensures |bytes| == 16
  {
    LE32(CENTRAL_SIGNATURE) + LE16(VERSION_MADE_BY_UNIX) + LE16(VERSION) + CommonFields()
  }

  function CentralLengths(nameLength: nat): (bytes: Bytes)
    ensures |bytes| == 10
  {
    LE16(nameLength) + LE16(0) + LE16(0) + LE16(0) + LE16(0)
  }

  function CentralHeader(crc: nat, size: nat, nameLength: nat, attributes: nat, offset: nat): (bytes: Bytes)
    ensures |bytes| == 46
  {
    CentralStart() + SizeFields(crc, size) + CentralLengths(nameLength) + (LE32(attributes) + LE32(offset))
  }

  function EndRecord(count: nat, size: nat, offset: nat): (bytes: Bytes)
    ensures |bytes| == END_RECORD_LENGTH
  {
    LE32(END_SIGNATURE) + LE16(0) + LE16(0) + LE16(count) + LE16(count) + LE32(size) + LE32(offset) + LE16(0)
  }

  // ---------- Whole archives ----------

  function LocalRecord(e: Entry): (bytes: Bytes)
    ensures |bytes| == 30 + |e.path| + |e.data|
  {
    LocalHeader(Crc(e.data), |e.data|, |e.path|) + e.path + e.data
  }

  function CentralRecord(e: Entry, offset: nat): (bytes: Bytes)
    ensures |bytes| == 46 + |e.path|
  {
    CentralHeader(Crc(e.data), |e.data|, |e.path|, ExternalAttributes(e.path, e.mode), offset) + e.path
  }

  function Locals(entries: seq<Entry>): Bytes {
    if entries == [] then [] else Locals(entries[..|entries| - 1]) + LocalRecord(entries[|entries| - 1])
  }

  function Centrals(entries: seq<Entry>): Bytes {
    if entries == [] then
      []
    else
      var front := entries[..|entries| - 1];
      Centrals(front) + CentralRecord(entries[|entries| - 1], |Locals(front)|)
  }

  /** The one byte string that stands for these entries. */
  function Layout(entries: seq<Entry>): Bytes {
    Locals(entries) + Centrals(entries) + EndRecord(|entries|, |Centrals(entries)|, |Locals(entries)|)
  }

  predicate LegalMode(path: Bytes, mode: nat) {
    if ArchivePath.EndsWithSlash(path) then
      mode == 0x41ed  // 040755
    else
      mode == 0x81a4 || mode == 0x81ed || mode == 0xa1ff  // 100644, 100755, 120777
  }

  predicate ValidEntry(e: Entry) {
    && ArchivePath.IsUtf8(e.path)
    && ArchivePath.Accepts(e.path)
    && LegalMode(e.path, e.mode)
    && (ArchivePath.EndsWithSlash(e.path) ==> e.data == [])
  }

  predicate EntryFits(e: Entry) {
    |e.path| <= U16_MAX && |e.data| <= U32_MAX
  }

  function Paths(entries: seq<Entry>): (paths: set<Bytes>) {
    set i | 0 <= i < |entries| :: entries[i].path
  }

  predicate DistinctPaths(entries: seq<Entry>) {
    forall i, j :: 0 <= i < j < |entries| ==> entries[i].path != entries[j].path
  }

  /** What load_selected_tree guarantees of a tree, entry by entry, whatever the sizes. */
  predicate ValidEntries(entries: seq<Entry>) {
    && (forall i :: 0 <= i < |entries| ==> ValidEntry(entries[i]))
    && DistinctPaths(entries)
  }

  predicate EntriesFit(entries: seq<Entry>) {
    |entries| <= U16_MAX && forall i :: 0 <= i < |entries| ==> EntryFits(entries[i])
  }

  /**
   The archive stands for the entries: valid names and modes, sizes and offsets that their
   ZIP32 fields hold, and exactly the canonical bytes.
   */
  predicate Represents(archive: Bytes, entries: seq<Entry>) {
    && ValidEntries(entries)
    && EntriesFit(entries)
    && |Locals(entries)| <= U32_MAX
    && |Centrals(entries)| <= U32_MAX
    && archive == Layout(entries)
  }

  // ---------- Records inside an archive ----------

  lemma {:induction false} LocalsAt(buffer: Bytes, entries: seq<Entry>, i: nat)
    requires i < |entries| && At(buffer, 0, Locals(entries))
    ensures At(buffer, 0, Locals(entries[..i]))
    ensures At(buffer, |Locals(entries[..i])|, LocalRecord(entries[i]))
    ensures |Locals(entries[..i])| + |LocalRecord(entries[i])| <= |Locals(entries)|
  {
    hide LocalRecord, At;
    var front := entries[..|entries| - 1];
    AtConcat(buffer, 0, Locals(front), LocalRecord(entries[|entries| - 1]));
    if i < |front| {
      LocalsAt(buffer, front, i);
      assert front[..i] == entries[..i];
    }
  }

  lemma {:induction false} CentralsAt(buffer: Bytes, start: nat, entries: seq<Entry>, i: nat)
    requires i < |entries| && At(buffer, start, Centrals(entries))
    ensures At(buffer, start, Centrals(entries[..i]))
    ensures At(buffer, start + |Centrals(entries[..i])|, CentralRecord(entries[i], |Locals(entries[..i])|))
    ensures |Centrals(entries[..i])| + |CentralRecord(entries[i], |Locals(entries[..i])|)| <= |Centrals(entries)|
  {
    hide CentralRecord, LocalRecord, At;
    var front := entries[..|entries| - 1];
    AtConcat(buffer, start, Centrals(front), CentralRecord(entries[|entries| - 1], |Locals(front)|));
    if i < |front| {
      CentralsAt(buffer, start, front, i);
      assert front[..i] == entries[..i];
    }
  }
}
