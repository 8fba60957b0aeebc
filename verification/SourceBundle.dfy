/** Source bundles: creation, validation against a tree, and the promises both rest on. */
module SourceBundle {
  import opened Wrappers
  import opened Bytes
  import opened ZipFormat
  import opened ZipReader
  import opened ZipParse
  import ZipWriter
  import ArchivePath
  import Crc32

  /** An archive stands for at most one list of entries. */
  lemma MeaningIsUnique(a: Bytes, left: seq<Entry>, right: seq<Entry>)
    requires Represents(a, left) && Represents(a, right)
    ensures left == right
  {
    hide Represents, ReadEnd, Scanned;
    RepresentedParts(a, left);
    RepresentedParts(a, right);
    SamePrefix(a, left, right, |left|);
    assert left[..|left|] == left && right[..|right|] == right;
  }

  lemma {:induction false} SamePrefix(a: Bytes, left: seq<Entry>, right: seq<Entry>, n: nat)
    requires Represents(a, left) && Represents(a, right) && n <= |left| == |right|
    requires |Locals(left)| == |Locals(right)| && |Centrals(left)| == |Centrals(right)|
    ensures left[..n] == right[..n]
  {
    hide Represents, ReadEntry, EntryHere, Locals, Centrals, Paths;
    if n != 0 {
      var i := n - 1;
      SamePrefix(a, left, right, i);
      NextEntryHere(a, left, i);
      NextEntryHere(a, right, i);
      var cursor, local := |Locals(left)| + |Centrals(left[..i])|, |Locals(left[..i])|;
      var offset, end := |Locals(left)|, |Locals(left)| + |Centrals(left)|;
      var seen := Paths(left[..i]);
      ReadEntryComplete(a, cursor, local, offset, end, seen, left[i]);
      ReadEntryComplete(a, cursor, local, offset, end, seen, right[i]);
      HereData(a, cursor, local, offset, end, seen, left[i]);
      HereData(a, cursor, local, offset, end, seen, right[i]);
      assert left[..n] == left[..i] + [left[i]] && right[..n] == right[..i] + [right[i]];
    }
  }

  /** The writer makes the archive of accepted entries exactly when the end record starts within u32 range. */
  lemma EncodableIff(a: Bytes, entries: seq<Entry>)
    requires Represents(a, entries)
    ensures ZipWriter.Encodable(entries) <==> |a| - END_RECORD_LENGTH <= U32_MAX
  {
    hide Locals, Centrals, EndRecord, ValidEntries;
  }

  lemma EncodedIsAccepted(entries: seq<Entry>)
    requires ValidEntries(entries) && ZipWriter.Encodable(entries)
    ensures Represents(Layout(entries), entries)
  {
  }

  lemma LocalsStep(entries: seq<Entry>, i: nat)
    requires i < |entries|
    ensures |Locals(entries[..i + 1])| == |Locals(entries[..i])| + 30 + |entries[i].path| + |entries[i].data|
  {
    hide LocalRecord, CentralRecord;
    ZipWriter.NextRecord(entries, i);
  }

  /** Headers and data tile the local region: each entry starts where the one before it ends. */
  lemma EntriesTileTheLocalRegion(a: Bytes, entries: seq<Entry>, i: nat)
    requires Represents(a, entries) && i < |entries|
    ensures var p := ParsedOf(entries, i);
            && p.dataEnd <= |a|
            && a[p.dataStart..p.dataEnd] == entries[i].data
            && p.dataStart - 30 - |p.path| == (if i == 0 then 0 else ParsedOf(entries, i - 1).dataEnd)
            && p.dataEnd <= |Locals(entries)|
            && (i + 1 == |entries| ==> p.dataEnd == |Locals(entries)|)
  {
    hide Represents, EntryHere, Locals, Centrals, Paths;
    NextEntryHere(a, entries, i);
    HereData(a, |Locals(entries)| + |Centrals(entries[..i])|, |Locals(entries[..i])|,
             |Locals(entries)|, |Locals(entries)| + |Centrals(entries)|, Paths(entries[..i]), entries[i]);
    LocalsStep(entries, i);
    ZipWriter.LocalsGrow(entries, i + 1);
    if i > 0 {
      LocalsStep(entries, i - 1);
    } else {
      ZipWriter.NoRecords(entries);
    }
    assert i + 1 == |entries| ==> entries[..i + 1] == entries;
  }

  /** validate_zip_against_tree: accepts exactly the archive that stands for the tree's entries. */
  method ValidateAgainstTree(tree: seq<Entry>, archive: Bytes) returns (ok: bool)
    ensures ok <==> Represents(archive, tree)
  {
    hide Represents, Locals, Centrals;
    var r := ParseZip(archive);
    if r.None? || |r.value| != |tree| {
      return false;
    }
    var parsed := r.value;
    ghost var entries :| Represents(archive, entries) && parsed == Parsed(entries);
    for i := 0 to |tree|
      invariant entries[..i] == tree[..i]
    {
      EntriesTileTheLocalRegion(archive, entries, i);
      if parsed[i].path != tree[i].path || parsed[i].mode != tree[i].mode {
        MeaningDiffers(archive, entries, tree);
        return false;
      }
      var content := archive[parsed[i].dataStart..parsed[i].dataEnd];
      if content != tree[i].data {
        MeaningDiffers(archive, entries, tree);
        return false;
      }
      assert entries[..i + 1] == entries[..i] + [entries[i]] && tree[..i + 1] == tree[..i] + [tree[i]];
    }
    assert entries[..|tree|] == entries && tree[..|tree|] == tree;
    ok := true;
  }

  /** The entries an accepted archive was read as: paths, modes and data slices. */
  method Reread(archive: Bytes, parsed: seq<ParsedEntry>, ghost entries: seq<Entry>) returns (r: seq<Entry>)
    requires Represents(archive, entries) && parsed == Parsed(entries)
    ensures r == entries
  {
    hide Represents, Locals;
    r := [];
    for i := 0 to |parsed|
      invariant r == entries[..i]
    {
      EntriesTileTheLocalRegion(archive, entries, i);
      r := r + [Entry(parsed[i].path, parsed[i].mode, archive[parsed[i].dataStart..parsed[i].dataEnd])];
      assert entries[..i + 1] == entries[..i] + [entries[i]];
    }
    assert entries[..|entries|] == entries;
  }

  /**
   Canonicity: encoding what the reader returned gives back the very bytes that were read, unless the end record
   starts beyond the u32 range; the reader alone does not bound that position.
   */
  method ReencodeAccepted(archive: Bytes) returns (accepted: bool, r: Option<Bytes>)
    ensures accepted <==> exists entries :: Represents(archive, entries)
    ensures accepted ==> r == if |archive| - END_RECORD_LENGTH <= U32_MAX then Some(archive) else None
  {
    hide Represents, Locals, Centrals, Parsed;
    var parsed := ParseZip(archive);
    if parsed.None? {
      return false, None;
    }
    ghost var meaning :| Represents(archive, meaning) && parsed.value == Parsed(meaning);
    var entries := Reread(archive, parsed.value, meaning);
    r := ZipWriter.EncodeZip(entries);
    EncodableIff(archive, entries);
    RepresentedLayout(archive, entries);
    accepted := true;
  }

  lemma RepresentedLayout(a: Bytes, entries: seq<Entry>)
    requires Represents(a, entries)
    ensures a == Layout(entries)
  {
    hide Locals, Centrals, EndRecord, ValidEntries;
  }

  /** What the reader returned of two archives is the same: names, modes, and the data in their ranges. */
  ghost predicate SameReading(a: Bytes, left: seq<ParsedEntry>, b: Bytes, right: seq<ParsedEntry>) {
    |left| == |right| && forall i :: 0 <= i < |left| ==>
      && left[i].path == right[i].path && left[i].mode == right[i].mode
      && left[i].dataStart <= left[i].dataEnd <= |a| && right[i].dataStart <= right[i].dataEnd <= |b|
      && a[left[i].dataStart..left[i].dataEnd] == b[right[i].dataStart..right[i].dataEnd]
  }

  /** Two accepted archives with the same reading are the same bytes, whatever their size. */
  lemma SameReadingSameBytes(a: Bytes, x: seq<Entry>, b: Bytes, y: seq<Entry>)
    requires Represents(a, x) && Represents(b, y) && SameReading(a, Parsed(x), b, Parsed(y))
    ensures a == b
  {
    hide Represents, Locals;
    forall i | 0 <= i < |x| ensures x[i] == y[i] {
      assert Parsed(x)[i].path == Parsed(y)[i].path;
      EntriesTileTheLocalRegion(a, x, i);
      EntriesTileTheLocalRegion(b, y, i);
    }
    assert x == y;
    RepresentedLayout(a, x);
    RepresentedLayout(b, y);
  }

  /** The smallest one-file bundle beyond the writer's range: data that just fills the local region. */
  function LargeEntry(): Entry {
    Entry([0x61], 0x81a4, seq(U32_MAX - 31, _ => 0))
  }

  lemma LargeEntryIsValid()
    ensures ValidEntry(LargeEntry()) && |LargeEntry().path| == 1 && |LargeEntry().data| == U32_MAX - 31
  {
    var path: Bytes := [0x61];
    var rest := ArchivePath.SplitSlash(path[1..]);
    assert path[1..] == [] && rest == [[]];
    assert [path[0]] + rest[0] == path && rest[1..] == [];
  }

  /** An archive that the reader accepts and the writer refuses to make. */
  lemma AcceptedBeyondTheWriter()
    ensures var entries := [LargeEntry()];
      && Represents(Layout(entries), entries) && !ZipWriter.Encodable(entries)
      && |Layout(entries)| - END_RECORD_LENGTH > U32_MAX
  {
    hide LargeEntry, LocalRecord, CentralRecord, EndRecord, ValidEntry;
    var entries := [LargeEntry()];
    LargeEntryIsValid();
    ZipWriter.NoRecords(entries);
    ZipWriter.NextRecord(entries, 0);
    assert entries[..0 + 1] == entries && entries[0] == LargeEntry();
    assert |Locals(entries)| == U32_MAX && |Centrals(entries)| == 47;
    assert Represents(Layout(entries), entries);
    EncodableIff(Layout(entries), entries);
  }

  lemma MeaningDiffers(a: Bytes, entries: seq<Entry>, other: seq<Entry>)
    requires Represents(a, entries) && entries != other
    ensures !Represents(a, other)
  {
    hide Represents;
    if Represents(a, other) {
      MeaningIsUnique(a, entries, other);
    }
  }

  /** The in-memory part of create_source_bundle: the self-check never rejects a bundle of a valid tree. */
  method BuildAndValidate(tree: seq<Entry>) returns (r: Option<Bytes>)
    requires ValidEntries(tree)
    ensures r == if ZipWriter.Encodable(tree) then Some(Layout(tree)) else None
  {
    hide Locals, Centrals, EndRecord, ValidEntries;
    r := ZipWriter.EncodeZip(tree);
    if r.Some? {
      EncodedIsAccepted(tree);
      var ok := ValidateAgainstTree(tree, r.value);
      if !ok {
        assert false;
        r := None;
      }
    }
  }

  // ---------- Damaged data is always noticed ----------

  lemma CrcDetermines(x: Bytes, y: Bytes)
    requires Crc(x) == Crc(y)
    ensures Crc32.Checksum(x) == Crc32.Checksum(y)
  {
    hide Crc32.Checksum;
    assert (Crc32.Checksum(x) as int) as bv32 == Crc32.Checksum(x);
    assert (Crc32.Checksum(y) as int) as bv32 == Crc32.Checksum(y);
  }

  /** Two central records at one place agree on name length, size and checksum. */
  lemma SameCentral(a: Bytes, cursor: nat, x: Entry, xOffset: nat, y: Entry, yOffset: nat)
    requires EntryFits(x) && EntryFits(y) && xOffset <= U32_MAX && yOffset <= U32_MAX
    requires At(a, cursor, CentralRecord(x, xOffset)) && At(a, cursor, CentralRecord(y, yOffset))
    ensures |x.path| == |y.path| && |x.data| == |y.data| && Crc(x.data) == Crc(y.data)
  {
    hide At, Crc, CentralHeader, ExternalAttributes, CentralStart, SizeFields, CentralLengths, ReadU16, ReadU32;
    var xa, ya := ExternalAttributes(x.path, x.mode), ExternalAttributes(y.path, y.mode);
    AtConcat(a, cursor, CentralHeader(Crc(x.data), |x.data|, |x.path|, xa, xOffset), x.path);
    AtConcat(a, cursor, CentralHeader(Crc(y.data), |y.data|, |y.path|, ya, yOffset), y.path);
    CentralHeaderAt(a, cursor, Crc(x.data), |x.data|, |x.path|, xa, xOffset);
    CentralHeaderAt(a, cursor, Crc(y.data), |y.data|, |y.path|, ya, yOffset);
    SizesAt(a, cursor + 16, Crc(x.data), |x.data|);
    SizesAt(a, cursor + 16, Crc(y.data), |y.data|);
    CentralLengthsAt(a, cursor + 28, |x.path|);
    CentralLengthsAt(a, cursor + 28, |y.path|);
  }

  /** The two archives agree from `start` on, so the central directory and the end record are the same. */
  lemma SameDirectory(a: Bytes, b: Bytes, x: seq<Entry>, y: seq<Entry>)
    requires Represents(a, x) && Represents(b, y)
    requires |a| == |b| && a[|Locals(x)|..] == b[|Locals(x)|..]
    ensures |x| == |y| && |Locals(x)| == |Locals(y)| && At(b, |Locals(x)|, Centrals(x))
  {
    hide Represents, ReadEnd, Locals, Centrals, EndRecord, ValidEntries, EntriesFit;
    RepresentedParts(a, x);
    RepresentedParts(b, y);
    var d := Directory(|x|, |Locals(x)|, |Centrals(x)|);
    ReadEndRange(a);
    ReadEndExact(a, d);
    SuffixAt(a, b, |Locals(x)|, d.offset + d.size, EndRecord(d.count, d.size, d.offset));
    SuffixAt(a, b, |Locals(x)|, d.offset, Centrals(x));
    ReadEndExact(b, d);
  }

  lemma SuffixAt(a: Bytes, b: Bytes, start: nat, at: nat, piece: Bytes)
    requires start <= |a| == |b| && a[start..] == b[start..] && start <= at && At(a, at, piece)
    ensures At(b, at, piece)
  {
    forall k | at <= k < at + |piece|
      ensures a[k] == b[k]
    {
      assert a[k] == a[start..][k - start] && b[k] == b[start..][k - start];
    }
    assert b[at..at + |piece|] == a[at..at + |piece|];
  }

  lemma {:induction false} SamePositions(b: Bytes, x: seq<Entry>, y: seq<Entry>, n: nat)
    requires Represents(b, y) && EntriesFit(x) && |x| == |y| && n <= |x| && |Locals(x)| == |Locals(y)|
    requires At(b, |Locals(y)|, Centrals(x))
    ensures |Locals(x[..n])| == |Locals(y[..n])| && |Centrals(x[..n])| == |Centrals(y[..n])|
    ensures forall i :: 0 <= i < n ==>
      |x[i].path| == |y[i].path| && |x[i].data| == |y[i].data| && Crc(x[i].data) == Crc(y[i].data)
  {
    hide Locals, Centrals, LocalRecord, CentralRecord, At, Crc, Layout, ValidEntries;
    if n == 0 {
      assert x[..n] == y[..n];
    } else {
      var i := n - 1;
      SamePositions(b, x, y, i);
      RepresentedParts(b, y);
      var start := |Locals(y)|;
      CentralsAt(b, start, x, i);
      CentralsAt(b, start, y, i);
      ZipWriter.LocalsGrow(y, i);
      SameCentral(b, start + |Centrals(x[..i])|, x[i], |Locals(x[..i])|, y[i], |Locals(y[..i])|);
      LocalsStep(x, i);
      LocalsStep(y, i);
      ZipWriter.NextRecord(x, i);
      ZipWriter.NextRecord(y, i);
    }
  }

  /** The archives differ, but only in bits of one window of thirty-two, inside the bytes from start to end. */
  ghost predicate DamagedWithin(a: Bytes, b: Bytes, start: nat, end: nat, at: nat) {
    && |a| == |b| && a != b
    && forall i :: 0 <= i < 8 * |a| && Crc32.BitAt(a, i) != Crc32.BitAt(b, i) ==>
      at <= i < at + 32 && 8 * start <= i < 8 * end
  }

  /**
   Damage confined to thirty-two consecutive bits of one entry's data is always rejected, wherever
   the entry sits: the damaged archive stands for nothing, so ParseZip returns None.
   */
  lemma DamagedDataIsRejected(a: Bytes, entries: seq<Entry>, i: nat, b: Bytes, at: nat)
    requires Represents(a, entries) && i < |entries|
    requires DamagedWithin(a, b, ParsedOf(entries, i).dataStart, ParsedOf(entries, i).dataEnd, at)
    ensures forall others :: !Represents(b, others)
  {
    hide Represents, Locals, Centrals, Crc, At, DamagedWithin;
    forall others: seq<Entry> | Represents(b, others)
      ensures false
    {
      var p := ParsedOf(entries, i);
      EntriesTileTheLocalRegion(a, entries, i);
      FitsOf(a, entries);
      SameElsewhere(a, b, p.dataStart, p.dataEnd, at, |Locals(entries)|);
      SameDirectory(a, b, entries, others);
      SamePositions(b, entries, others, i + 1);
      SamePositions(b, entries, others, i);
      EntriesTileTheLocalRegion(b, others, i);
      var x, y := entries[i].data, others[i].data;
      assert x == a[p.dataStart..p.dataEnd] && y == b[p.dataStart..p.dataEnd];
      CrcDetermines(x, y);
      DifferInWindow(a, b, p.dataStart, p.dataEnd, at);
    }
  }

  lemma SameElsewhere(a: Bytes, b: Bytes, start: nat, end: nat, at: nat, from: nat)
    requires DamagedWithin(a, b, start, end, at) && end <= from <= |a|
    ensures |a| == |b| && a[from..] == b[from..]
  {
    forall k | from <= k < |a| ensures a[k] == b[k] {
      if a[k] != b[k] {
        var i := Crc32.DifferentBit(a, b, k);
      }
    }
  }

  lemma FitsOf(a: Bytes, entries: seq<Entry>)
    requires Represents(a, entries)
    ensures EntriesFit(entries) && |Locals(entries)| <= |a|
  {
    hide Locals, Centrals, ValidEntries;
  }

  lemma BitOfSlice(a: Bytes, start: nat, end: nat, i: nat)
    requires start <= end <= |a| && i < 8 * (end - start)
    ensures Crc32.BitAt(a[start..end], i) == Crc32.BitAt(a, 8 * start + i)
  {
    assert (8 * start + i) / 8 == start + i / 8 && (8 * start + i) % 8 == i % 8;
  }

  lemma DifferInWindow(a: Bytes, b: Bytes, start: nat, end: nat, at: nat)
    requires DamagedWithin(a, b, start, end, at) && start <= end <= |a|
    ensures |a| == |b| && Crc32.Checksum(a[start..end]) != Crc32.Checksum(b[start..end])
  {
    hide Crc32.Checksum, Crc32.BitAt;
    var x, y := a[start..end], b[start..end];
    var k :| 0 <= k < |a| && a[k] != b[k];
    var bit := Crc32.DifferentBit(a, b, k);
    assert x[k - start] == a[k] && y[k - start] == b[k];
    var from := if at >= 8 * start then at - 8 * start else 0;
    forall i | 0 <= i < 8 * |x| && Crc32.BitAt(x, i) != Crc32.BitAt(y, i) ensures from <= i < from + 32 {
      BitOfSlice(a, start, end, i);
      BitOfSlice(b, start, end, i);
    }
    Crc32.DetectsBurst(x, y, from);
  }
}
