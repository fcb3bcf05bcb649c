// recorder::RecordingReader of src/libs/recordings/utility/recording_reader.cpp:
// reads the file header of a recording, then the tagged entries until the file
// ends. Opening the file is a parameter (whether it opened, and its bytes); the
// supported version number, the SHA-256 behind the information checksum and
// Recording::get_header_checksum are parameters too.

module RecordingReaders {
  import opened Bytes
  import opened Wrappers
  import opened StreamIO
  import opened InputEvents
  import opened MinoStacks
  import opened TetrionSnapshots
  import opened AdditionalInformations
  import opened Recordings

  /** What from_path returns: the headers, the information, the records and the snapshots. */
  datatype RecordingData = RecordingData(
    headers: seq<TetrionHeader>,
    information: Info,
    records: seq<Record>,
    snapshots: seq<Snapshot>)

  // ----- the readers as functions of the stream -----

  /** read_tetrion_header_from_file. */
  function ReadTetrionHeader(c: Cursor): (res: (Cursor, Result<TetrionHeader, ReadError>))
    requires c.Valid()
    ensures res.0.Valid() && res.0.data == c.data && res.0.pos >= c.pos
  {
    if !c.good then (c, Err(ReadError(InvalidStream, "failed to read data from file")))
    else
      var seed := ReadIntegral(c, 8);
      if seed.1.Err? then (seed.0, Err(ReadError(Incomplete, "field 'seed' has no value")))
      else
        var level := ReadIntegral(seed.0, 4);
        if level.1.Err? then (level.0, Err(ReadError(Incomplete, "field 'starting_level' has no value")))
        else
          Pow256Widths();
          (level.0, Ok(TetrionHeader(seed.1.value, level.1.value)))
  }

  /** read_record_from_file: index, step and event, in that order; the event must be valid. */
  function ReadRecord(c: Cursor): (res: (Cursor, Result<Record, ReadError>))
    requires c.Valid()
    ensures res.0.Valid() && res.0.data == c.data && res.0.pos >= c.pos
  {
    if !c.good then (c, Err(ReadError(InvalidStream, "invalid input file stream while trying to read record")))
    else
      var index := ReadIntegral(c, 1);
      if index.1.Err? then (index.0, Err(ReadError(EndOfFile, "the field 'tetrion_index' is missing")))
      else
        var step := ReadIntegral(index.0, 8);
        if step.1.Err? then (step.0, Err(ReadError(Incomplete, "the field 'simulation_step_index' is missing")))
        else
          var event := ReadIntegral(step.0, 1);
          if event.1.Err? then (event.0, Err(ReadError(Incomplete, "the field 'InputEvent' is missing")))
          else if !event.0.good then (event.0, Err(ReadError(Incomplete, "failed to read data from file")))
          else
            var e := EventFromIndex(event.1.value);
            if e.None? then
              (event.0, Err(ReadError(Incomplete, "got invalid enum value for InputEvent: " + Decimal(event.1.value))))
            else
              Pow256Widths();
              (event.0, Ok(Record(index.1.value, step.1.value, e.value)))
  }

  /** The loop over tetrion headers i .. n - 1. */
  function ReadHeaders(c: Cursor, n: nat, i: nat, acc: seq<TetrionHeader>)
    : (res: (Cursor, Result<seq<TetrionHeader>, string>))
    requires c.Valid() && i <= n
    ensures res.0.Valid() && res.0.data == c.data
    decreases n - i
  {
    if i == n then (c, Ok(acc))
    else
      var h := ReadTetrionHeader(c);
      if h.1.Err? then (h.0, Err("failed to read tetrion header from recorded game"))
      else ReadHeaders(h.0, n, i + 1, acc + [h.1.value])
  }

  /** get_header_from_path once the file is open: magic, version, the headers, the information, the checksum. */
  function ReadFileHeader(c: Cursor, supported: u8, hash: seq<u8> -> Digest, headerChecksum: HeaderChecksum)
    : (res: (Cursor, Result<(seq<TetrionHeader>, Info), string>))
    requires c.Valid()
    ensures res.0.Valid() && res.0.data == c.data
  {
    var magic := ReadIntegral(c, 4);
    if magic.1.Err? then (magic.0, Err("unable to read magic file bytes from recorded game"))
    else if magic.1.value != MagicFileByte as nat then
      (magic.0, Err("magic file bytes are not correct, this is either an old format or no recording at all"))
    else
      var version := ReadIntegral(magic.0, 1);
      if version.1.Err? then (version.0, Err("unable to read recording version from recorded game"))
      else if version.1.value != supported as nat then
        (version.0, Err("only supported version at the moment is " + Decimal(supported)
          + ", but got " + Decimal(version.1.value)))
      else
        var count := ReadIntegral(version.0, 1);
        if count.1.Err? then (count.0, Err("unable to read number of tetrions from recorded game"))
        else ReadHeaderBody(count.0, supported, count.1.value, hash, headerChecksum)
  }

  /** The part of get_header_from_path after the tetrion count n. */
  function ReadHeaderBody(c: Cursor, version: u8, n: nat, hash: seq<u8> -> Digest, headerChecksum: HeaderChecksum)
    : (res: (Cursor, Result<(seq<TetrionHeader>, Info), string>))
    requires c.Valid()
    ensures res.0.Valid() && res.0.data == c.data
  {
    var headers := ReadHeaders(c, n, 0, []);
    if headers.1.Err? then (headers.0, Err(headers.1.error))
    else
      var info := ReadInfo(headers.0, hash);
      if info.1.Err? then (info.0, Err("failed to read AdditionalInformation from recorded game"))
      else
        ReadHeaderChecksum(info.0, headerChecksum(version, headers.1.value, info.1.value), headers.1.value, info.1.value)
  }

  /** The end of get_header_from_path: the stored checksum must be the calculated one. */
  function ReadHeaderChecksum(c: Cursor, calculated: Digest, headers: seq<TetrionHeader>, info: Info)
    : (res: (Cursor, Result<(seq<TetrionHeader>, Info), string>))
    requires c.Valid()
    ensures res.0.Valid() && res.0.data == c.data
  {
    var stored := ReadFieldsFromFile(c, ChecksumSize, 1);
    if stored.1.Err? then (stored.0, Err("unable to read header checksum from recorded game"))
    else if stored.1.value != calculated then
      (stored.0, Err("header checksum mismatch, the file was altered: expected "
        + HexJoin(calculated) + " but got " + HexJoin(stored.1.value)))
    else (stored.0, Ok((headers, info)))
  }

  /**
   * The body loop of from_path with the records and snapshots read so far: a
   * tag, then the entry it announces, until a tag read comes up short or the
   * stream goes bad.
   */
  function ReadEntries(c: Cursor, records: seq<Record>, snapshots: seq<Snapshot>)
    : (res: (Cursor, Result<(seq<Record>, seq<Snapshot>), string>))
    requires c.Valid()
    ensures res.0.Valid() && res.0.data == c.data
    decreases |c.data| - c.pos
  {
    var tag := ReadIntegral(c, 1);
    if tag.1.Err? then
      if tag.1.error.kind == Incomplete then (tag.0, Ok((records, snapshots)))
      else (tag.0, Err("unable to read magic byte"))
    else if tag.1.value == TagRecord as nat then
      var r := ReadRecord(tag.0);
      if r.1.Err? then (r.0, Err("invalid record while reading recorded game"))
      else if !r.0.good then (r.0, Ok((records + [r.1.value], snapshots)))
      else ReadEntries(r.0, records + [r.1.value], snapshots)
    else if tag.1.value == TagSnapshot as nat then
      var s := ReadSnapshot(tag.0);
      if s.1.Err? then (s.0, Err("error while reading TetrionSnapshot"))
      else if !s.0.good then (s.0, Ok((records, snapshots + [s.1.value])))
      else ReadEntries(s.0, records, snapshots + [s.1.value])
    else (tag.0, Err("invalid magic byte: " + Decimal(tag.1.value)))
  }

  /** from_path on a file that opened or not, with the given contents. */
  function ReadRecording(isOpen: bool, path: string, c: Cursor, supported: u8,
                         hash: seq<u8> -> Digest, headerChecksum: HeaderChecksum): Result<RecordingData, string>
    requires c.Valid()
  {
    if !isOpen then Err("unable to load recording from file \"" + path + "\"")
    else
      var header := ReadFileHeader(c, supported, hash, headerChecksum);
      if header.1.Err? then Err(header.1.error)
      else
        var entries := ReadEntries(header.0, [], []);
        if entries.1.Err? then Err(entries.1.error)
        else Ok(RecordingData(header.1.value.0, header.1.value.1, entries.1.value.0, entries.1.value.1))
  }

  // ----- reading what the writer lays out -----

  /** Reading an n-byte field where its layout is leaves the cursor at what follows. */
  lemma IntegralStep(c: Cursor, x: nat, n: nat, rest: seq<u8>) returns (c1: Cursor)
    requires c.good && x < Pow256(n) && StartsWith(c, ToLE(x, n) + rest)
    ensures c1 == Cursor(c.data, c.pos + n, true) && StartsWith(c1, rest)
    ensures ReadIntegral(c, n).0 == c1 && ReadIntegral(c, n).1 == Ok(x)
  {
    StartsWithSplit(c, ToLE(x, n), rest);
    ToLEInjective(x, ReadIntegral(c, n).1.value, n);
    c1 := Cursor(c.data, c.pos + n, true);
  }

  lemma ByteStep(c: Cursor, b: u8, rest: seq<u8>) returns (c1: Cursor)
    requires c.good && StartsWith(c, [b] + rest)
    ensures c1 == Cursor(c.data, c.pos + 1, true) && StartsWith(c1, rest)
    ensures ReadIntegral(c, 1).0 == c1 && ReadIntegral(c, 1).1 == Ok(b as nat)
  {
    ToLEOne(b);
    Pow256Widths();
    c1 := IntegralStep(c, b, 1, rest);
  }

  /** A tetrion header is read back from its 12 bytes. */
  lemma TetrionHeaderBack(c: Cursor, h: TetrionHeader, rest: seq<u8>) returns (c1: Cursor)
    requires c.good && StartsWith(c, TetrionHeaderBytes(h) + rest)
    ensures c1 == Cursor(c.data, c.pos + 12, true) && StartsWith(c1, rest)
    ensures ReadTetrionHeader(c).0 == c1 && ReadTetrionHeader(c).1 == Ok(h)
  {
    Pow256Widths();
    assert TetrionHeaderBytes(h) + rest == ToLE(h.seed, 8) + (ToLE(h.startingLevel, 4) + rest);
    var c0 := IntegralStep(c, h.seed, 8, ToLE(h.startingLevel, 4) + rest);
    c1 := IntegralStep(c0, h.startingLevel, 4, rest);
  }

  /** The header loop reads back every header from their layout, in order. */
  lemma {:induction false} HeadersRoundTrip(headers: seq<TetrionHeader>, i: nat, c: Cursor, rest: seq<u8>)
    requires i <= |headers| && c.good && StartsWith(c, HeadersBytes(headers[i..]) + rest)
    ensures ReadHeaders(c, |headers|, i, headers[..i]).0 == Cursor(c.data, c.pos + 12 * (|headers| - i), true)
    ensures ReadHeaders(c, |headers|, i, headers[..i]).1 == Ok(headers)
    decreases |headers| - i
  {
    if i == |headers| {
      assert headers[..i] == headers;
    } else {
      var tail := HeadersBytes(headers[i + 1..]) + rest;
      assert headers[i..] == [headers[i]] + headers[i + 1..];
      assert HeadersBytes(headers[i..]) + rest == TetrionHeaderBytes(headers[i]) + tail;
      var c1 := TetrionHeaderBack(c, headers[i], tail);
      assert headers[..i] + [headers[i]] == headers[..i + 1];
      HeadersRoundTrip(headers, i + 1, c1, rest);
    }
  }

  /** Magic, version and count read back; what follows is the header body. */
  lemma FileHeaderPrefix(c: Cursor, supported: u8, headers: seq<TetrionHeader>, after: seq<u8>,
                         hash: seq<u8> -> Digest, headerChecksum: HeaderChecksum) returns (c3: Cursor)
    requires |headers| < 256 && c.good
    requires StartsWith(c, ToLE(MagicFileByte, 4) + ([supported] + ([|headers| as u8] + after)))
    ensures c3 == Cursor(c.data, c.pos + 6, true) && StartsWith(c3, after)
    ensures ReadFileHeader(c, supported, hash, headerChecksum)
      == ReadHeaderBody(c3, supported, |headers|, hash, headerChecksum)
  {
    Pow256Widths();
    var c1 := IntegralStep(c, MagicFileByte, 4, [supported] + ([|headers| as u8] + after));
    var c2 := ByteStep(c1, supported, [|headers| as u8] + after);
    c3 := ByteStep(c2, |headers| as u8, after);
  }

  /** The header loop from the first header reads them all, leaving the cursor at what follows. */
  lemma HeadersBack(c: Cursor, headers: seq<TetrionHeader>, rest: seq<u8>) returns (c4: Cursor)
    requires c.good && StartsWith(c, HeadersBytes(headers) + rest)
    ensures c4 == Cursor(c.data, c.pos + 12 * |headers|, true) && StartsWith(c4, rest)
    ensures ReadHeaders(c, |headers|, 0, []).0 == c4 && ReadHeaders(c, |headers|, 0, []).1 == Ok(headers)
  {
    assert headers[0..] == headers && headers[..0] == [];
    HeadersRoundTrip(headers, 0, c, rest);
    StartsWithSplit(c, HeadersBytes(headers), rest);
    c4 := Cursor(c.data, c.pos + 12 * |headers|, true);
  }

  /** The information read back from its serialized bytes, leaving the cursor at what follows. */
  lemma InfoBack(c: Cursor, m: Info, order: seq<seq<u8>>, hash: seq<u8> -> Digest, info: seq<u8>, rest: seq<u8>)
    returns (c5: Cursor)
    requires IsEnumeration(order, m) && Storable(m) && Serialize(hash, m, order) == Ok(info)
    requires c.good && StartsWith(c, info + rest)
    ensures c5 == Cursor(c.data, c.pos + |info|, true) && StartsWith(c5, rest)
    ensures ReadInfo(c, hash).0 == c5 && ReadInfo(c, hash).1 == Ok(m)
  {
    StartsWithSplit(c, info, rest);
    InfoRoundTrip(hash, m, order, c);
    c5 := Cursor(c.data, c.pos + |info|, true);
  }

  /** The header body read back: the headers, the information, then the checksum check. */
  lemma HeaderBodyBack(c: Cursor, supported: u8, headers: seq<TetrionHeader>, m: Info, order: seq<seq<u8>>,
                       hash: seq<u8> -> Digest, headerChecksum: HeaderChecksum, d: Digest, rest: seq<u8>)
    returns (c5: Cursor)
    requires IsEnumeration(order, m) && Storable(m) && Serialize(hash, m, order).Ok?
    requires c.good && StartsWith(c, HeadersBytes(headers) + (Serialize(hash, m, order).value + (d + rest)))
    ensures c5 == Cursor(c.data, c.pos + 12 * |headers| + |Serialize(hash, m, order).value|, true)
    ensures StartsWith(c5, d + rest)
    ensures ReadHeaderBody(c, supported, |headers|, hash, headerChecksum)
      == ReadHeaderChecksum(c5, headerChecksum(supported, headers, m), headers, m)
  {
    var info := Serialize(hash, m, order).value;
    var c4 := HeadersBack(c, headers, info + (d + rest));
    c5 := InfoBack(c4, m, order, hash, info, d + rest);
  }

  /** The stored checksum read back; it passes exactly when it is the calculated one. */
  lemma HeaderChecksumBack(c: Cursor, calculated: Digest, d: Digest, headers: seq<TetrionHeader>, m: Info, rest: seq<u8>)
    requires c.good && StartsWith(c, d + rest)
    ensures ReadHeaderChecksum(c, calculated, headers, m).0 == Cursor(c.data, c.pos + 32, true)
    ensures d == calculated ==> ReadHeaderChecksum(c, calculated, headers, m).1 == Ok((headers, m))
    ensures d != calculated ==>
      ReadHeaderChecksum(c, calculated, headers, m).1 == Err("header checksum mismatch, the file was altered: expected " + HexJoin(calculated) + " but got " + HexJoin(d))
  {
    StartsWithSplit(c, d, rest);
    ChecksumBack(c, d);
  }

  /**
   * get_header_from_path reads back the file header get_writer writes, up to
   * the checksum, which is accepted exactly when it is the calculated one.
   */
  lemma FileHeaderRead(c: Cursor, supported: u8, headers: seq<TetrionHeader>, m: Info, order: seq<seq<u8>>,
                       hash: seq<u8> -> Digest, headerChecksum: HeaderChecksum, d: Digest, rest: seq<u8>)
    requires |headers| < 256 && IsEnumeration(order, m) && Storable(m) && Serialize(hash, m, order).Ok?
    requires c.good && StartsWith(c, FileHeaderBytes(supported, headers, Serialize(hash, m, order).value, d) + rest)
    ensures ReadFileHeader(c, supported, hash, headerChecksum).0
      == Cursor(c.data, c.pos + |FileHeaderBytes(supported, headers, Serialize(hash, m, order).value, d)|, true)
    ensures d == headerChecksum(supported, headers, m) ==>
      ReadFileHeader(c, supported, hash, headerChecksum).1 == Ok((headers, m))
    ensures d != headerChecksum(supported, headers, m) ==>
      ReadFileHeader(c, supported, hash, headerChecksum).1
      == Err("header checksum mismatch, the file was altered: expected " + HexJoin(headerChecksum(supported, headers, m))
        + " but got " + HexJoin(d))
  {
    var info := Serialize(hash, m, order).value;
    var after := HeadersBytes(headers) + (info + (d + rest));
    FileHeaderSplit(supported, headers, info, d, rest);
    var c3 := FileHeaderPrefix(c, supported, headers, after, hash, headerChecksum);
    var c5 := HeaderBodyBack(c3, supported, headers, m, order, hash, headerChecksum, d, rest);
    HeaderChecksumBack(c5, headerChecksum(supported, headers, m), d, headers, m, rest);
  }

  /** The file header followed by more bytes, grouped field by field. */
  lemma FileHeaderSplit(version: u8, headers: seq<TetrionHeader>, info: seq<u8>, d: Digest, rest: seq<u8>)
    requires |headers| < 256
    ensures FileHeaderBytes(version, headers, info, d) + rest
      == ToLE(MagicFileByte, 4) + ([version] + ([|headers| as u8] + (HeadersBytes(headers) + (info + (d + rest)))))
  {
    var f := d + rest;
    var e := info + d;
    var h := HeadersBytes(headers);
    var k := [|headers| as u8];
    SmallCount(|headers|);
    ConcatAssociative(info, d, rest);
    ConcatAssociative(h, e, rest);
    ConcatAssociative(k, h + e, rest);
    ConcatAssociative([version], k + (h + e), rest);
    ConcatAssociative(ToLE(MagicFileByte, 4), [version] + (k + (h + e)), rest);
  }

  lemma SmallCount(n: nat)
    requires n < 256
    ensures n % 256 == n
  {
  }

  /** A record is read back from its 10 bytes after the tag. */
  lemma RecordBack(c: Cursor, r: Record, rest: seq<u8>) returns (c1: Cursor)
    requires c.good && StartsWith(c, RecordBody(r) + rest)
    ensures c1 == Cursor(c.data, c.pos + 10, true) && StartsWith(c1, rest)
    ensures ReadRecord(c).0 == c1 && ReadRecord(c).1 == Ok(r)
  {
    Pow256Widths();
    var e := EventIndex(r.event);
    assert RecordBody(r) + rest == [r.tetrionIndex] + (ToLE(r.simulationStepIndex, 8) + ([e] + rest));
    var c0 := ByteStep(c, r.tetrionIndex, ToLE(r.simulationStepIndex, 8) + ([e] + rest));
    var c01 := IntegralStep(c0, r.simulationStepIndex, 8, [e] + rest);
    c1 := ByteStep(c01, e, rest);
  }

  /** Every snapshot among the entries can be read back: one mino per cell. */
  predicate SnapshotsReadable(entries: seq<Entry>)
  {
    forall i :: 0 <= i < |entries| && entries[i].SnapshotEntry? ==> DistinctPositions(entries[i].snapshot.minos)
  }

  lemma RecordEntryStep(c: Cursor, r: Record, records: seq<Record>, snapshots: seq<Snapshot>, rest: seq<u8>)
    returns (c1: Cursor)
    requires c.good && StartsWith(c, RecordBytes(r) + rest)
    ensures c1 == Cursor(c.data, c.pos + 11, true) && StartsWith(c1, rest)
    ensures ReadEntries(c, records, snapshots) == ReadEntries(c1, records + [r], snapshots)
  {
    ConcatAssociative([TagRecord], RecordBody(r), rest);
    var c0 := ByteStep(c, TagRecord, RecordBody(r) + rest);
    c1 := RecordBack(c0, r, rest);
  }

  lemma SnapshotEntryStep(c: Cursor, s: Snapshot, records: seq<Record>, snapshots: seq<Snapshot>, rest: seq<u8>)
    returns (c1: Cursor)
    requires DistinctPositions(s.minos)
    requires c.good && StartsWith(c, SnapshotEntryBytes(s) + rest)
    ensures c1 == Cursor(c.data, c.pos + |SnapshotEntryBytes(s)|, true) && StartsWith(c1, rest)
    ensures ReadEntries(c, records, snapshots) == ReadEntries(c1, records, snapshots + [s])
  {
    ConcatAssociative([TagSnapshot], SnapshotBytes(s), rest);
    var c0 := ByteStep(c, TagSnapshot, SnapshotBytes(s) + rest);
    c1 := SnapshotBack(c0, s, rest);
  }

  /** A snapshot is read back from its bytes after the tag. */
  lemma SnapshotBack(c: Cursor, s: Snapshot, rest: seq<u8>) returns (c1: Cursor)
    requires DistinctPositions(s.minos)
    requires c.good && StartsWith(c, SnapshotBytes(s) + rest)
    ensures c1 == Cursor(c.data, c.pos + |SnapshotBytes(s)|, true) && StartsWith(c1, rest)
    ensures ReadSnapshot(c).0 == c1 && ReadSnapshot(c).1 == Ok(s)
  {
    StartsWithSplit(c, SnapshotBytes(s), rest);
    SnapshotRoundTrip(s, c);
    c1 := Cursor(c.data, c.pos + |SnapshotBytes(s)|, true);
  }

  /**
   * The body loop reads back entries that run to the end of the file: the
   * records and the snapshots, each in file order.
   */
  lemma {:induction false} EntriesRoundTrip(entries: seq<Entry>, c: Cursor, records: seq<Record>, snapshots: seq<Snapshot>)
    requires SnapshotsReadable(entries)
    requires c.good && StartsWith(c, EntriesBytes(entries)) && c.pos + |EntriesBytes(entries)| == |c.data|
    ensures ReadEntries(c, records, snapshots).1 == Ok((records + RecordsOf(entries), snapshots + SnapshotsOf(entries)))
    decreases |entries|
  {
    if |entries| == 0 {
      assert records + [] == records && snapshots + [] == snapshots;
    } else {
      var e := entries[0];
      var tail := entries[1..];
      assert SnapshotsReadable(tail) by {
        forall i | 0 <= i < |tail| && tail[i].SnapshotEntry?
          ensures DistinctPositions(tail[i].snapshot.minos)
        {
          assert tail[i] == entries[i + 1];
        }
      }
      var rest := EntriesBytes(tail);
      if e.RecordEntry? {
        var c1 := RecordEntryStep(c, e.record, records, snapshots, rest);
        EntriesRoundTrip(tail, c1, records + [e.record], snapshots);
        RecordInFront(entries, records, snapshots);
      } else {
        assert DistinctPositions(entries[0].snapshot.minos);
        var c1 := SnapshotEntryStep(c, e.snapshot, records, snapshots, rest);
        EntriesRoundTrip(tail, c1, records, snapshots + [e.snapshot]);
        SnapshotInFront(entries, records, snapshots);
      }
    }
  }

  /**
   * from_path reads back a file get_writer and add_record / add_snapshot
   * wrote: the headers, the information, and the records and snapshots in
   * the order they were added.
   */
  lemma RecordingRoundTrip(path: string, supported: u8, headers: seq<TetrionHeader>, m: Info, order: seq<seq<u8>>,
                           hash: seq<u8> -> Digest, headerChecksum: HeaderChecksum, entries: seq<Entry>)
    requires |headers| < 256 && IsEnumeration(order, m) && Storable(m) && Serialize(hash, m, order).Ok?
    requires SnapshotsReadable(entries)
    ensures ReadRecording(true, path,
      Cursor(FileHeaderBytes(supported, headers, Serialize(hash, m, order).value, headerChecksum(supported, headers, m))
        + EntriesBytes(entries), 0, true), supported, hash, headerChecksum)
      == Ok(RecordingData(headers, m, RecordsOf(entries), SnapshotsOf(entries)))
  {
    var header := FileHeaderBytes(supported, headers, Serialize(hash, m, order).value, headerChecksum(supported, headers, m));
    var c := Cursor(header + EntriesBytes(entries), 0, true);
    WrittenHeaderRead(supported, headers, m, order, hash, headerChecksum, EntriesBytes(entries));
    WrittenEntriesRead(header, entries);
    RecordingOf(path, c, supported, hash, headerChecksum, Cursor(c.data, |header|, true), headers, m,
      RecordsOf(entries), SnapshotsOf(entries));
  }

  /** The file header get_writer writes reads back, whatever follows it. */
  lemma WrittenHeaderRead(supported: u8, headers: seq<TetrionHeader>, m: Info, order: seq<seq<u8>>,
                          hash: seq<u8> -> Digest, headerChecksum: HeaderChecksum, body: seq<u8>)
    requires |headers| < 256 && IsEnumeration(order, m) && Storable(m) && Serialize(hash, m, order).Ok?
    ensures var header := FileHeaderBytes(supported, headers, Serialize(hash, m, order).value,
                                          headerChecksum(supported, headers, m));
      var c := Cursor(header + body, 0, true);
      c.Valid() && ReadFileHeader(c, supported, hash, headerChecksum).0 == Cursor(c.data, |header|, true)
      && ReadFileHeader(c, supported, hash, headerChecksum).1 == Ok((headers, m))
  {
    var header := FileHeaderBytes(supported, headers, Serialize(hash, m, order).value, headerChecksum(supported, headers, m));
    WholeFile(header, body);
    FileHeaderRead(Cursor(header + body, 0, true), supported, headers, m, order, hash, headerChecksum,
      headerChecksum(supported, headers, m), body);
  }

  /** The entries after a header read back to the end of the file. */
  lemma WrittenEntriesRead(header: seq<u8>, entries: seq<Entry>)
    requires SnapshotsReadable(entries)
    ensures var c1 := Cursor(header + EntriesBytes(entries), |header|, true);
      c1.Valid() && ReadEntries(c1, [], []).1 == Ok((RecordsOf(entries), SnapshotsOf(entries)))
  {
    WholeFile(header, EntriesBytes(entries));
    EntriesRoundTrip(entries, Cursor(header + EntriesBytes(entries), |header|, true), [], []);
    EmptyPrefix(RecordsOf(entries));
    EmptyPrefix(SnapshotsOf(entries));
  }

  lemma EmptyPrefix<T>(s: seq<T>)
    ensures [] + s == s
  {
  }

  /** from_path on an open file whose header and body read back. */
  lemma RecordingOf(path: string, c: Cursor, supported: u8, hash: seq<u8> -> Digest, headerChecksum: HeaderChecksum,
                    c1: Cursor, headers: seq<TetrionHeader>, m: Info, records: seq<Record>, snapshots: seq<Snapshot>)
    requires c.Valid()
    requires ReadFileHeader(c, supported, hash, headerChecksum).0 == c1
    requires ReadFileHeader(c, supported, hash, headerChecksum).1 == Ok((headers, m))
    requires ReadEntries(c1, [], []).1 == Ok((records, snapshots))
    ensures ReadRecording(true, path, c, supported, hash, headerChecksum) == Ok(RecordingData(headers, m, records, snapshots))
  {
  }

  /** A file of a then b: it starts with all of it, and b starts right after a. */
  lemma WholeFile(a: seq<u8>, b: seq<u8>)
    ensures StartsWith(Cursor(a + b, 0, true), a + b)
    ensures StartsWith(Cursor(a + b, |a|, true), b) && |a| + |b| == |a + b|
  {
    assert (a + b)[0..|a + b|] == a + b;
    assert (a + b)[|a|..|a| + |b|] == b;
  }

  // ----- error cases -----

  /** A file whose first four bytes are not the magic word is refused. */
  lemma WrongMagicRejected(c: Cursor, x: u32, supported: u8, hash: seq<u8> -> Digest, headerChecksum: HeaderChecksum)
    requires c.good && StartsWith(c, ToLE(x, 4)) && x != MagicFileByte
    ensures ReadFileHeader(c, supported, hash, headerChecksum).1
      == Err("magic file bytes are not correct, this is either an old format or no recording at all")
  {
    Pow256Widths();
    assert ToLE(x, 4) + [] == ToLE(x, 4);
    var c1 := IntegralStep(c, x, 4, []);
  }

  /** A file of the right format but another version is refused, naming both versions. */
  lemma WrongVersionRejected(c: Cursor, v: u8, supported: u8, hash: seq<u8> -> Digest, headerChecksum: HeaderChecksum)
    requires c.good && StartsWith(c, ToLE(MagicFileByte, 4) + [v]) && v != supported
    ensures ReadFileHeader(c, supported, hash, headerChecksum).1
      == Err("only supported version at the moment is " + Decimal(supported) + ", but got " + Decimal(v))
  {
    Pow256Widths();
    assert [v] + [] == [v];
    var c1 := IntegralStep(c, MagicFileByte, 4, [v]);
    var c2 := ByteStep(c1, v, []);
  }

  /** A file that ends before the whole magic word is refused. */
  lemma ShortFileRejected(c: Cursor, supported: u8, hash: seq<u8> -> Digest, headerChecksum: HeaderChecksum)
    requires c.Valid() && c.good && c.Remaining() < 4
    ensures ReadFileHeader(c, supported, hash, headerChecksum).1 == Err("unable to read magic file bytes from recorded game")
  {
  }

  /** At the end of the file the body loop stops without error. */
  lemma EndOfFileEndsEntries(c: Cursor, records: seq<Record>, snapshots: seq<Snapshot>)
    requires c.Valid() && c.good && c.Remaining() == 0
    ensures ReadEntries(c, records, snapshots).1 == Ok((records, snapshots))
  {
  }

  /** A tag other than 42 and 43 is refused, naming the tag. */
  lemma UnknownTagRejected(c: Cursor, t: u8, records: seq<Record>, snapshots: seq<Snapshot>)
    requires c.good && StartsWith(c, [t]) && t != TagRecord && t != TagSnapshot
    ensures ReadEntries(c, records, snapshots).1 == Err("invalid magic byte: " + Decimal(t))
  {
    assert [t] + [] == [t];
    var c1 := ByteStep(c, t, []);
  }

  /** A record whose event byte is not an InputEvent is refused, by read_record_from_file and by the loop. */
  lemma InvalidEventRejected(c: Cursor, index: u8, step: u64, e: u8, records: seq<Record>, snapshots: seq<Snapshot>)
    requires c.good && StartsWith(c, [TagRecord] + ([index] + (ToLE(step, 8) + [e]))) && e as nat >= EventCount
    ensures ReadRecord(Cursor(c.data, c.pos + 1, true)).1
      == Err(ReadError(Incomplete, "got invalid enum value for InputEvent: " + Decimal(e)))
    ensures ReadEntries(c, records, snapshots).1 == Err("invalid record while reading recorded game")
  {
    Pow256Widths();
    assert [e] + [] == [e];
    var c0 := ByteStep(c, TagRecord, [index] + (ToLE(step, 8) + [e]));
    var c1 := ByteStep(c0, index, ToLE(step, 8) + [e]);
    var c2 := IntegralStep(c1, step, 8, [e]);
    var c3 := ByteStep(c2, e, []);
  }

  /** A record cut short by the end of the file is refused. */
  lemma TruncatedRecordRejected(c: Cursor, records: seq<Record>, snapshots: seq<Snapshot>)
    requires c.good && StartsWith(c, [TagRecord]) && c.Remaining() < 11
    ensures ReadEntries(c, records, snapshots).1 == Err("invalid record while reading recorded game")
  {
    assert [TagRecord] + [] == [TagRecord];
    var c1 := ByteStep(c, TagRecord, []);
  }

  // ----- the reader -----

  /** A recording read into memory. */
  class RecordingReader {
    var headers: seq<TetrionHeader>
    var information: Info
    var records: seq<Record>
    var snapshots: seq<Snapshot>

    constructor (headers: seq<TetrionHeader>, information: Info, records: seq<Record>, snapshots: seq<Snapshot>)
      ensures this.headers == headers && this.information == information
      ensures this.records == records && this.snapshots == snapshots
    {
      this.headers := headers;
      this.information := information;
      this.records := records;
      this.snapshots := snapshots;
    }

    /** from_path: the file header, then every entry. */
    static method FromPath(path: string, isOpen: bool, input: InputStream, supported: u8,
                           hash: seq<u8> -> Digest, headerChecksum: HeaderChecksum)
      returns (r: Result<RecordingReader, string>)
      requires input.Valid()
      modifies input
      ensures r.Ok? <==> ReadRecording(isOpen, path, old(input.State()), supported, hash, headerChecksum).Ok?
      ensures r.Err? ==> r.error == ReadRecording(isOpen, path, old(input.State()), supported, hash, headerChecksum).error
      ensures r.Ok? ==> fresh(r.value)
      ensures r.Ok? ==> r.value.Data() == ReadRecording(isOpen, path, old(input.State()), supported, hash, headerChecksum).value
    {
      var header := GetHeaderFromPath(path, isOpen, input, supported, hash, headerChecksum);
      if header.Err? {
        return Err(header.error);
      }
      var entries := ReadEntriesFrom(input);
      if entries.Err? {
        return Err(entries.error);
      }
      var reader := new RecordingReader(header.value.0, header.value.1, entries.value.0, entries.value.1);
      r := Ok(reader);
    }

    /** get_header_from_path (and is_header_valid, which returns its result without the stream). */
    static method GetHeaderFromPath(path: string, isOpen: bool, input: InputStream, supported: u8,
                                    hash: seq<u8> -> Digest, headerChecksum: HeaderChecksum)
      returns (r: Result<(seq<TetrionHeader>, Info), string>)
      requires input.Valid()
      modifies input
      ensures input.Valid()
      ensures !isOpen ==> r == Err("unable to load recording from file \"" + path + "\"")
      ensures isOpen ==> input.State() == ReadFileHeader(old(input.State()), supported, hash, headerChecksum).0
      ensures isOpen ==> r == ReadFileHeader(old(input.State()), supported, hash, headerChecksum).1
    {
      if !isOpen {
        return Err("unable to load recording from file \"" + path + "\"");
      }
      var magic := input.ReadIntegralFromFile(4);
      if magic.Err? {
        return Err("unable to read magic file bytes from recorded game");
      }
      if magic.value != MagicFileByte as nat {
        return Err("magic file bytes are not correct, this is either an old format or no recording at all");
      }
      var version := input.ReadIntegralFromFile(1);
      if version.Err? {
        return Err("unable to read recording version from recorded game");
      }
      if version.value != supported as nat {
        return Err("only supported version at the moment is " + Decimal(supported) + ", but got " + Decimal(version.value));
      }
      var count := input.ReadIntegralFromFile(1);
      if count.Err? {
        return Err("unable to read number of tetrions from recorded game");
      }
      r := ReadHeaderBodyFrom(input, supported, count.value, hash, headerChecksum);
    }

    /** get_header_from_path after the tetrion count n. */
    static method ReadHeaderBodyFrom(input: InputStream, version: u8, n: nat,
                                     hash: seq<u8> -> Digest, headerChecksum: HeaderChecksum)
      returns (r: Result<(seq<TetrionHeader>, Info), string>)
      requires input.Valid()
      modifies input
      ensures input.Valid()
      ensures input.State() == ReadHeaderBody(old(input.State()), version, n, hash, headerChecksum).0
      ensures r == ReadHeaderBody(old(input.State()), version, n, hash, headerChecksum).1
    {
      var headers := ReadHeadersFrom(input, n);
      if headers.Err? {
        return Err(headers.error);
      }
      var information := AdditionalInformation.FromIstream(input, hash);
      if information.Err? {
        return Err("failed to read AdditionalInformation from recorded game");
      }
      var values := information.value.values;
      var calculated := headerChecksum(version, headers.value, values);
      var stored := input.ReadArrayFromFile(ChecksumSize, 1);
      if stored.Err? {
        return Err("unable to read header checksum from recorded game");
      }
      if stored.value != calculated {
        return Err("header checksum mismatch, the file was altered: expected "
          + HexJoin(calculated) + " but got " + HexJoin(stored.value));
      }
      r := Ok((headers.value, values));
    }

    /** The header loop of get_header_from_path. */
    static method ReadHeadersFrom(input: InputStream, n: nat) returns (r: Result<seq<TetrionHeader>, string>)
      requires input.Valid()
      modifies input
      ensures input.Valid()
      ensures input.State() == ReadHeaders(old(input.State()), n, 0, []).0
      ensures r == ReadHeaders(old(input.State()), n, 0, []).1
    {
      var headers: seq<TetrionHeader> := [];
      var i := 0;
      while i < n
        invariant input.Valid() && i <= n
        invariant ReadHeaders(old(input.State()), n, 0, []) == ReadHeaders(input.State(), n, i, headers)
      {
        var header := ReadTetrionHeaderFrom(input);
        if header.Err? {
          return Err("failed to read tetrion header from recorded game");
        }
        headers := headers + [header.value];
        i := i + 1;
      }
      r := Ok(headers);
    }

    static method ReadTetrionHeaderFrom(input: InputStream) returns (r: Result<TetrionHeader, ReadError>)
      requires input.Valid()
      modifies input
      ensures input.Valid()
      ensures input.State() == ReadTetrionHeader(old(input.State())).0
      ensures r == ReadTetrionHeader(old(input.State())).1
    {
      if !input.good {
        return Err(ReadError(InvalidStream, "failed to read data from file"));
      }
      var seed := input.ReadIntegralFromFile(8);
      if seed.Err? {
        return Err(ReadError(Incomplete, "field 'seed' has no value"));
      }
      var level := input.ReadIntegralFromFile(4);
      if level.Err? {
        return Err(ReadError(Incomplete, "field 'starting_level' has no value"));
      }
      Pow256Widths();
      r := Ok(TetrionHeader(seed.value, level.value));
    }

    static method ReadRecordFrom(input: InputStream) returns (r: Result<Record, ReadError>)
      requires input.Valid()
      modifies input
      ensures input.Valid()
      ensures input.State() == ReadRecord(old(input.State())).0
      ensures r == ReadRecord(old(input.State())).1
    {
      if !input.good {
        return Err(ReadError(InvalidStream, "invalid input file stream while trying to read record"));
      }
      var index := input.ReadIntegralFromFile(1);
      if index.Err? {
        return Err(ReadError(EndOfFile, "the field 'tetrion_index' is missing"));
      }
      var step := input.ReadIntegralFromFile(8);
      if step.Err? {
        return Err(ReadError(Incomplete, "the field 'simulation_step_index' is missing"));
      }
      var event := input.ReadIntegralFromFile(1);
      if event.Err? {
        return Err(ReadError(Incomplete, "the field 'InputEvent' is missing"));
      }
      if !input.good {
        return Err(ReadError(Incomplete, "failed to read data from file"));
      }
      var e := EventFromIndex(event.value);
      if e.None? {
        return Err(ReadError(Incomplete, "got invalid enum value for InputEvent: " + Decimal(event.value)));
      }
      Pow256Widths();
      r := Ok(Record(index.value, step.value, e.value));
    }

    /** The while (true) loop of from_path. */
    static method ReadEntriesFrom(input: InputStream) returns (r: Result<(seq<Record>, seq<Snapshot>), string>)
      requires input.Valid()
      modifies input
      ensures input.Valid()
      ensures input.State() == ReadEntries(old(input.State()), [], []).0
      ensures r == ReadEntries(old(input.State()), [], []).1
    {
      var records: seq<Record> := [];
      var snapshots: seq<Snapshot> := [];
      while true
        invariant input.Valid()
        invariant ReadEntries(old(input.State()), [], []) == ReadEntries(input.State(), records, snapshots)
        decreases |input.data| - input.pos
      {
        var tag := input.ReadIntegralFromFile(1);
        if tag.Err? {
          if tag.error.kind == Incomplete {
            break;
          }
          return Err("unable to read magic byte");
        }
        if tag.value == TagRecord as nat {
          var record := ReadRecordFrom(input);
          if record.Err? {
            return Err("invalid record while reading recorded game");
          }
          records := records + [record.value];
        } else if tag.value == TagSnapshot as nat {
          var snapshot := TetrionSnapshots.FromIstream(input);
          if snapshot.Err? {
            return Err("error while reading TetrionSnapshot");
          }
          snapshots := snapshots + [snapshot.value];
        } else {
          return Err("invalid magic byte: " + Decimal(tag.value));
        }
        if !input.good {
          break;
        }
      }
      r := Ok((records, snapshots));
    }

    /** The reader's contents as a value. */
    function Data(): RecordingData
      reads this
    {
      RecordingData(headers, information, records, snapshots)
    }

    /** at: the record at index, which must exist. */
    function At(index: nat): (r: Option<Record>)
      reads this
      ensures r.Some? <==> index < |records|
      ensures r.Some? ==> r.value == records[index]
    {
      if index < |records| then Some(records[index]) else None
    }

    function NumRecords(): (r: nat)
      reads this
      ensures r == |records|
    {
      |records|
    }
  }
}
