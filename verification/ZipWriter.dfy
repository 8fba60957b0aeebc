/** encode_zip: the archive writer. */
module ZipWriter {
  import opened Wrappers
  import opened Bytes
  import opened ZipFormat
  import Crc32

  datatype CentralEntry = CentralEntry(path: Bytes, mode: nat, crc: nat, size: nat, offset: nat)

  /** Counts, sizes and offsets that encode_zip can write. The end offset bounds all other offsets. */
  predicate Encodable(entries: seq<Entry>) {
    EntriesFit(entries) && |Locals(entries)| + |Centrals(entries)| <= U32_MAX
  }

  function CentralEntryOf(entries: seq<Entry>, i: nat): CentralEntry
    requires i < |entries|
  {
    var e := entries[i];
    CentralEntry(e.path, e.mode, Crc(e.data), |e.data|, |Locals(entries[..i])|)
  }

  lemma {:induction false} LocalsGrow(entries: seq<Entry>, i: nat)
    requires i <= |entries|
    ensures |Locals(entries[..i])| <= |Locals(entries)|
  {
    hide LocalRecord;
    if i == |entries| {
      assert entries[..i] == entries;
    } else {
      var front := entries[..|entries| - 1];
      LocalsGrow(front, i);
      assert front[..i] == entries[..i];
    }
  }

  lemma NextRecord(entries: seq<Entry>, i: nat)
    requires i < |entries|
    ensures Locals(entries[..i + 1]) == Locals(entries[..i]) + LocalRecord(entries[i])
    ensures Centrals(entries[..i + 1]) == Centrals(entries[..i]) + CentralRecord(entries[i], |Locals(entries[..i])|)
  {
    hide LocalRecord, CentralRecord;
    assert entries[..i + 1][..i] == entries[..i];
  }

  lemma NoRecords(entries: seq<Entry>)
    ensures Locals(entries[..0]) == [] && Centrals(entries[..0]) == []
  {
  }

  method CrcOf(data: Bytes) returns (crc: nat)
    ensures crc == Crc(data)
  {
    var checksum := Crc32.Compute(data);
    crc := checksum as int;
  }

  /** One turn of the first loop: the local header, the name and the data. */
  method PushLocal(entries: seq<Entry>, i: nat, archive: Bytes) returns (r: Bytes, record: CentralEntry)
    requires i < |entries| && archive == Locals(entries[..i])
    ensures r == archive + LocalRecord(entries[i])
    ensures record == CentralEntryOf(entries, i)
  {
    hide Crc, LocalHeader, Locals;
    var entry := entries[i];
    var crc := CrcOf(entry.data);
    var header := LocalHeader(crc, |entry.data|, |entry.path|);
    r := archive + header + entry.path + entry.data;
    record := CentralEntry(entry.path, entry.mode, crc, |entry.data|, |archive|);
    assert r == archive + (header + entry.path + entry.data);
  }

  /** One turn of the second loop: the central header and the name. */
  method PushCentral(ghost entries: seq<Entry>, ghost i: nat, archive: Bytes, record: CentralEntry) returns (r: Bytes)
    requires i < |entries| && record == CentralEntryOf(entries, i)
    ensures r == archive + CentralRecord(entries[i], |Locals(entries[..i])|)
  {
    hide Crc, CentralHeader, ExternalAttributes, Locals;
    var attributes := ExternalAttributes(record.path, record.mode);
    var header := CentralHeader(record.crc, record.size, |record.path|, attributes, record.offset);
    r := archive + header + record.path;
    assert r == archive + (header + record.path);
  }

  /** The first loop: local headers with their data, and the central records they leave behind. */
  method WriteLocals(entries: seq<Entry>) returns (r: Option<(Bytes, seq<CentralEntry>)>)
    ensures r.None? ==> !Encodable(entries)
    ensures r.Some? ==> r.value.0 == Locals(entries) && |r.value.1| == |entries|
    ensures r.Some? ==> forall i :: 0 <= i < |entries| ==> r.value.1[i] == CentralEntryOf(entries, i)
    ensures r.Some? ==> forall i :: 0 <= i < |entries| ==> EntryFits(entries[i])
  {
    hide LocalRecord, CentralRecord, Locals, CentralEntryOf;
    NoRecords(entries);
    var archive: Bytes := [];
    var records: seq<CentralEntry> := [];
    for i := 0 to |entries|
      invariant archive == Locals(entries[..i])
      invariant |records| == i && forall j :: 0 <= j < i ==> records[j] == CentralEntryOf(entries, j)
      invariant forall j :: 0 <= j < i ==> EntryFits(entries[j])
    {
      var entry := entries[i];
      LocalsGrow(entries, i);
      if |entry.path| > U16_MAX || |entry.data| > U32_MAX || |archive| > U32_MAX {
        return None;
      }
      NextRecord(entries, i);
      var record;
      archive, record := PushLocal(entries, i, archive);
      records := records + [record];
    }
    assert entries[..|entries|] == entries;
    r := Some((archive, records));
  }

  /** The second loop: the central directory. */
  method WriteCentrals(entries: seq<Entry>, start: Bytes, records: seq<CentralEntry>) returns (archive: Bytes)
    requires |records| == |entries| && forall i :: 0 <= i < |entries| ==> records[i] == CentralEntryOf(entries, i)
    ensures archive == start + Centrals(entries)
  {
    hide LocalRecord, CentralRecord, Locals, Centrals, CentralEntryOf;
    NoRecords(entries);
    archive := start;
    for i := 0 to |records|
      invariant archive == start + Centrals(entries[..i])
    {
      NextRecord(entries, i);
      archive := PushCentral(entries, i, archive, records[i]);
    }
    assert entries[..|entries|] == entries;
  }

  /** Succeeds exactly on encodable entries, with exactly their layout. */
  method EncodeZip(entries: seq<Entry>) returns (r: Option<Bytes>)
    ensures r == if Encodable(entries) then Some(Layout(entries)) else None
  {
    hide Locals, Centrals, EndRecord;
    if |entries| > U16_MAX {
      return None;
    }
    var written := WriteLocals(entries);
    if written.None? {
      return None;
    }
    var (archive, records) := written.value;
    var directoryOffset := |archive|;
    if directoryOffset > U32_MAX {
      return None;
    }
    archive := WriteCentrals(entries, archive, records);
    if |archive| > U32_MAX {
      return None;
    }
    var directorySize := |archive| - directoryOffset;
    r := Some(archive + EndRecord(|entries|, directorySize, directoryOffset));
  }
}
