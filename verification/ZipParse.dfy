/** parse_zip as a whole, and what the bundle check promises about archives. */
module ZipParse {
  import opened Wrappers
  import opened Bytes
  import opened ZipFormat
  import opened ZipReader

  /** Where entry i of a represented archive lies. */
  function ParsedOf(entries: seq<Entry>, i: nat): ParsedEntry
    requires i < |entries|
  {
    var e := entries[i];
    var start := |Locals(entries[..i])| + 30 + |e.path|;
    ParsedEntry(e.path, e.mode, start, start + |e.data|)
  }

  function Parsed(entries: seq<Entry>): (parsed: seq<ParsedEntry>)
    ensures |parsed| == |entries|
    ensures forall i :: 0 <= i < |entries| ==> parsed[i] == ParsedOf(entries, i)
  {
    seq(|entries|, i requires 0 <= i < |entries| => ParsedOf(entries, i))
  }

  /** The records of `entries` lie at the starts of the local region and of the directory. */
  ghost predicate Scanned(a: Bytes, d: Directory, entries: seq<Entry>) {
    && ValidEntries(entries) && EntriesFit(entries)
    && At(a, 0, Locals(entries)) && |Locals(entries)| <= d.offset
    && At(a, d.offset, Centrals(entries)) && |Centrals(entries)| <= d.size
  }

  lemma Snoc(entries: seq<Entry>, e: Entry)
    ensures Locals(entries + [e]) == Locals(entries) + LocalRecord(e)
    ensures Centrals(entries + [e]) == Centrals(entries) + CentralRecord(e, |Locals(entries)|)
  {
    hide LocalRecord, CentralRecord;
    assert (entries + [e])[..|entries|] == entries;
  }

  lemma ParsedSnoc(entries: seq<Entry>, e: Entry, cursor: nat)
    ensures Parsed(entries + [e]) == Parsed(entries) + [TurnOf(cursor, |Locals(entries)|, e).entry]
  {
    hide Locals;
    var more := entries + [e];
    assert more[..|entries|] == entries;
    forall i | 0 <= i < |entries|
      ensures Parsed(more)[i] == Parsed(entries)[i]
    {
      assert more[..i] == entries[..i];
    }
  }

  lemma ScanStep(a: Bytes, d: Directory, entries: seq<Entry>, e: Entry)
    requires Scanned(a, d, entries) && |entries| < U16_MAX
    requires EntryHere(a, d.offset + |Centrals(entries)|, |Locals(entries)|, d.offset, d.offset + d.size,
                       Paths(entries), e)
    ensures Scanned(a, d, entries + [e])
  {
    hide At, LocalRecord, CentralRecord, Locals, Centrals, ValidEntry;
    Snoc(entries, e);
    AtConcat(a, 0, Locals(entries), LocalRecord(e));
    AtConcat(a, d.offset, Centrals(entries), CentralRecord(e, |Locals(entries)|));
    assert forall i :: 0 <= i < |entries| ==> entries[i].path in Paths(entries);
  }

  lemma RepresentedParts(a: Bytes, entries: seq<Entry>)
    requires Represents(a, entries)
    ensures var d := Directory(|entries|, |Locals(entries)|, |Centrals(entries)|);
            ReadEnd(a) == Some(d) && Scanned(a, d, entries)
  {
    hide At, Locals, Centrals, EndRecord, ReadEnd, ValidEntries, EntriesFit;
    var d := Directory(|entries|, |Locals(entries)|, |Centrals(entries)|);
    var end := EndRecord(d.count, d.size, d.offset);
    assert At(a, 0, a) by {
      WholeAt(a);
    }
    AtConcat(a, 0, Locals(entries) + Centrals(entries), end);
    AtConcat(a, 0, Locals(entries), Centrals(entries));
    assert d.count <= U16_MAX by {
      FitCount(entries);
    }
    ReadEndExact(a, d);
  }

  lemma WholeAt(a: Bytes)
    ensures At(a, 0, a)
  {
    assert a[0..|a|] == a;
  }

  lemma FitCount(entries: seq<Entry>)
    requires EntriesFit(entries)
    ensures |entries| <= U16_MAX
  {
  }

  lemma ScannedWhole(a: Bytes, d: Directory, entries: seq<Entry>)
    requires ReadEnd(a) == Some(d) && Scanned(a, d, entries) && |entries| == d.count
    requires |Locals(entries)| == d.offset && |Centrals(entries)| == d.size
    ensures Represents(a, entries)
  {
    hide At, Locals, Centrals, EndRecord, ReadEnd, ValidEntries, EntriesFit;
    ReadEndRange(a);
    ReadEndExact(a, d);
    var end := EndRecord(d.count, d.size, d.offset);
    AtConcat(a, 0, Locals(entries), Centrals(entries));
    AtConcat(a, 0, Locals(entries) + Centrals(entries), end);
    AllAt(a, Layout(entries));
  }

  lemma AllAt(a: Bytes, piece: Bytes)
    requires At(a, 0, piece) && |piece| == |a|
    ensures a == piece
  {
  }

  /** While `entries` is a proper prefix of represented entries, the next one is where the cursors are. */
  lemma NextEntryHere(a: Bytes, full: seq<Entry>, i: nat)
    requires Represents(a, full) && i < |full|
    ensures EntryHere(a, |Locals(full)| + |Centrals(full[..i])|, |Locals(full[..i])|,
                      |Locals(full)|, |Locals(full)| + |Centrals(full)|, Paths(full[..i]), full[i])
  {
    hide At, LocalRecord, CentralRecord, Locals, Centrals, ValidEntry, Layout;
    RepresentedParts(a, full);
    LocalsAt(a, full, i);
    CentralsAt(a, |Locals(full)|, full, i);
    assert full[i].path !in Paths(full[..i]);
  }

  /** Every archive that stands for entries stands for entries that continue `entries`. */
  ghost predicate Candidates(a: Bytes, d: Directory, entries: seq<Entry>) {
    forall full :: Represents(a, full) ==>
      |full| == d.count && |Locals(full)| == d.offset && |Centrals(full)| == d.size && entries <= full
  }

  lemma CandidatesStart(a: Bytes, d: Directory)
    requires ReadEnd(a) == Some(d)
    ensures Candidates(a, d, [])
  {
    hide Represents, ReadEnd, Scanned;
    forall full | Represents(a, full)
      ensures |full| == d.count && |Locals(full)| == d.offset && |Centrals(full)| == d.size
    {
      RepresentedParts(a, full);
    }
  }

  /** The next turn of the loop reads the next entry of every candidate. */
  lemma CandidateTurn(a: Bytes, d: Directory, entries: seq<Entry>, full: seq<Entry>)
    requires Candidates(a, d, entries) && |entries| < d.count && Represents(a, full)
    ensures entries < full
    ensures ReadEntry(a, d.offset + |Centrals(entries)|, |Locals(entries)|, d.offset, d.offset + d.size, Paths(entries))
         == Some(TurnOf(d.offset + |Centrals(entries)|, |Locals(entries)|, full[|entries|]))
    ensures |full[|entries|].data| +
      TurnOf(d.offset + |Centrals(entries)|, |Locals(entries)|, full[|entries|]).entry.dataStart <= |a|
    ensures full[|entries|].data ==
            var t := TurnOf(d.offset + |Centrals(entries)|, |Locals(entries)|, full[|entries|]).entry;
            a[t.dataStart..t.dataEnd]
  {
    hide Represents, EntryHere, ReadEntry, Locals, Centrals, Paths;
    assert entries == full[..|entries|];
    NextEntryHere(a, full, |entries|);
    var cursor := d.offset + |Centrals(entries)|;
    ReadEntryComplete(a, cursor, |Locals(entries)|, d.offset, d.offset + d.size, Paths(entries), full[|entries|]);
    HereData(a, cursor, |Locals(entries)|, d.offset, d.offset + d.size, Paths(entries), full[|entries|]);
  }

  lemma HereData(a: Bytes, cursor: nat, localCursor: nat, directoryOffset: nat, directoryEnd: nat, seen: set<Bytes>,
                 e: Entry)
    requires EntryHere(a, cursor, localCursor, directoryOffset, directoryEnd, seen, e)
    ensures localCursor + 30 + |e.path| + |e.data| <= |a|
    ensures e.data == a[localCursor + 30 + |e.path|..localCursor + 30 + |e.path| + |e.data|]
  {
    hide LocalHeader, CentralRecord, ValidEntry, Crc;
    AtConcat(a, localCursor, LocalHeader(Crc(e.data), |e.data|, |e.path|) + e.path, e.data);
  }

  /** parse_zip returns exactly what the archive stands for, and rejects exactly what stands for nothing. */
  method ParseZip(archive: Bytes) returns (r: Option<seq<ParsedEntry>>)
    ensures forall entries :: Represents(archive, entries) ==> r == Some(Parsed(entries))
    ensures r.Some? ==> exists entries :: Represents(archive, entries) && r.value == Parsed(entries)
  {
    hide ReadEnd, ReadEntry, EntryHere, Represents, Scanned, Locals, Centrals, ValidEntry, LocalRecord, CentralRecord;
    var end := ReadEnd(archive);
    if end.None? {
      forall entries | Represents(archive, entries)
        ensures false
      {
        RepresentedParts(archive, entries);
      }
      return None;
    }
    var d := end.value;
    ReadEndRange(archive);
    CandidatesStart(archive, d);
    ScannedNothing(archive, d);
    var parsed: seq<ParsedEntry> := [];
    var centralCursor := d.offset;
    var localCursor := 0;
    var seen: set<Bytes> := {};
    ghost var entries: seq<Entry> := [];
    assert parsed == Parsed(entries);
    for i := 0 to d.count
      invariant |entries| == i && parsed == Parsed(entries)
      invariant Scanned(archive, d, entries) && Candidates(archive, d, entries)
      invariant centralCursor == d.offset + |Centrals(entries)| && localCursor == |Locals(entries)|
      invariant seen == Paths(entries)
    {
      var turn := ReadEntry(archive, centralCursor, localCursor, d.offset, d.offset + d.size, seen);
      forall full | Represents(archive, full)
        ensures entries < full && turn == Some(TurnOf(centralCursor, localCursor, full[i]))
      {
        CandidateTurn(archive, d, entries, full);
      }
      if turn.None? {
        return None;
      }
      var entry := turn.value.entry;
      ReadEntrySound(archive, centralCursor, localCursor, d.offset, d.offset + d.size, seen, turn.value);
      ghost var e := Entry(entry.path, entry.mode, archive[entry.dataStart..entry.dataEnd]);
      ScanStep(archive, d, entries, e);
      Snoc(entries, e);
      ParsedSnoc(entries, e, centralCursor);
      CandidateStep(archive, d, entries, e);
      parsed := parsed + [entry];
      seen := seen + {entry.path};
      localCursor := entry.dataEnd;
      centralCursor := turn.value.next;
      PathsSnoc(entries, e);
      entries := entries + [e];
    }
    forall full | Represents(archive, full)
      ensures full == entries
    {
      assert entries <= full;
    }
    if centralCursor != d.offset + d.size || localCursor != d.offset {
      return None;
    }
    ScannedWhole(archive, d, entries);
    r := Some(parsed);
  }

  lemma ScannedNothing(a: Bytes, d: Directory)
    requires ReadEnd(a) == Some(d)
    ensures Scanned(a, d, [])
    ensures Locals([]) == [] && Centrals([]) == [] && Paths([]) == {}
  {
    hide At, ReadU16, ReadU32, ReadEnd;
    EndLeavesRoom(a, d);
    NothingAt(a, 0);
    NothingAt(a, d.offset);
  }

  lemma EndLeavesRoom(a: Bytes, d: Directory)
    requires ReadEnd(a) == Some(d)
    ensures d.offset <= |a|
  {
    hide ReadU16, ReadU32;
  }

  lemma NothingAt(a: Bytes, at: nat)
    ensures At(a, at, []) <==> at <= |a|
  {
  }

  lemma PathsSnoc(entries: seq<Entry>, e: Entry)
    ensures Paths(entries + [e]) == Paths(entries) + {e.path}
  {
    var more := entries + [e];
    assert more[|entries|] == e;
    forall path | path in Paths(entries)
      ensures path in Paths(more)
    {
      var i :| 0 <= i < |entries| && entries[i].path == path;
      assert more[i].path == path;
    }
  }

  lemma CandidateStep(a: Bytes, d: Directory, entries: seq<Entry>, e: Entry)
    requires Candidates(a, d, entries) && |entries| < d.count
    requires ReadEntry(a, d.offset + |Centrals(entries)|, |Locals(entries)|, d.offset, d.offset + d.size,
                       Paths(entries))
          == Some(TurnOf(d.offset + |Centrals(entries)|, |Locals(entries)|, e))
    requires var t := TurnOf(d.offset + |Centrals(entries)|, |Locals(entries)|, e).entry;
             t.dataEnd <= |a| && e.data == a[t.dataStart..t.dataEnd]
    ensures Candidates(a, d, entries + [e])
  {
    hide Represents, ReadEntry, Locals, Centrals, Paths;
    forall full | Represents(a, full)
      ensures entries + [e] <= full
    {
      CandidateTurn(a, d, entries, full);
      assert full[|entries|] == e;
    }
  }
}
