// The recording file format shared by recorder::RecordingWriter and
// recorder::RecordingReader: a file header (magic word, format version, the
// number of tetrions, one header per tetrion, the additional information and a
// checksum over all of that) followed by tagged entries, each a Record (an
// input event of one tetrion at a simulation step) or a TetrionSnapshot.

module Recordings {
  import opened Bytes
  import opened Wrappers
  import opened InputEvents
  import opened MinoStacks
  import opened TetrionSnapshots
  import opened AdditionalInformations

  /** The first four bytes of every recording: 0xFF, then "OOP". */
  const MagicFileByte: u32 := 0xFF4F4F50

  /** The tags (MagicByte) in front of each entry. */
  const TagRecord: u8 := 42
  const TagSnapshot: u8 := 43

  /** The seed and starting level of one tetrion. */
  datatype TetrionHeader = TetrionHeader(seed: u64, startingLevel: u32)

  /** One input event of one tetrion at a simulation step. */
  datatype Record = Record(tetrionIndex: u8, simulationStepIndex: u64, event: InputEvent)

  /** An entry of the recording body, in file order. */
  datatype Entry = RecordEntry(record: Record) | SnapshotEntry(snapshot: Snapshot)

  /**
   * Recording::get_header_checksum: a SHA-256 over the version, the tetrion
   * headers and the information. Its definition is not part of this model.
   */
  type HeaderChecksum = (u8, seq<TetrionHeader>, Info) -> Digest

  // ----- byte layout -----

  /** write_tetrion_header_to_file: the seed (8 bytes), then the starting level (4 bytes). */
  function TetrionHeaderBytes(h: TetrionHeader): (r: seq<u8>)
    ensures |r| == 12
  {
    ToLE(h.seed, 8) + ToLE(h.startingLevel, 4)
  }

  function HeadersBytes(headers: seq<TetrionHeader>): (r: seq<u8>)
    ensures |r| == 12 * |headers|
  {
    if |headers| == 0 then [] else TetrionHeaderBytes(headers[0]) + HeadersBytes(headers[1..])
  }

  /**
   * The file header get_writer writes: magic, version, the header count cast
   * to one byte, the headers, the serialized information and the checksum.
   */
  function FileHeaderBytes(version: u8, headers: seq<TetrionHeader>, info: seq<u8>, checksum: Digest): seq<u8>
  {
    ToLE(MagicFileByte, 4) + ([version] + ([(|headers| % 256) as u8] + (HeadersBytes(headers) + (info + checksum))))
  }

  /** A record after its tag: tetrion index, simulation step (8 bytes), event. */
  function RecordBody(r: Record): (b: seq<u8>)
    ensures |b| == 10
  {
    [r.tetrionIndex] + (ToLE(r.simulationStepIndex, 8) + [EventIndex(r.event)])
  }

  /** add_record: the tag, then the record. */
  function RecordBytes(r: Record): (b: seq<u8>)
    ensures |b| == 11
  {
    [TagRecord] + RecordBody(r)
  }

  /** add_snapshot: the tag, then TetrionSnapshot::to_bytes. */
  function SnapshotEntryBytes(s: Snapshot): (b: seq<u8>)
    ensures |b| == 1 + |SnapshotBytes(s)|
  {
    [TagSnapshot] + SnapshotBytes(s)
  }

  function EntryBytes(e: Entry): seq<u8>
  {
    match e
    case RecordEntry(r) => RecordBytes(r)
    case SnapshotEntry(s) => SnapshotEntryBytes(s)
  }

  function EntriesBytes(entries: seq<Entry>): seq<u8>
  {
    if |entries| == 0 then [] else EntryBytes(entries[0]) + EntriesBytes(entries[1..])
  }

  /** The records among the entries, in order. */
  function RecordsOf(entries: seq<Entry>): seq<Record>
  {
    if |entries| == 0 then []
    else (if entries[0].RecordEntry? then [entries[0].record] else []) + RecordsOf(entries[1..])
  }

  /** The snapshots among the entries, in order. */
  function SnapshotsOf(entries: seq<Entry>): seq<Snapshot>
  {
    if |entries| == 0 then []
    else (if entries[0].SnapshotEntry? then [entries[0].snapshot] else []) + SnapshotsOf(entries[1..])
  }

  /** A record entry in front adds its record in front of the others' records, and no snapshot. */
  lemma RecordInFront(entries: seq<Entry>, records: seq<Record>, snapshots: seq<Snapshot>)
    requires |entries| > 0 && entries[0].RecordEntry?
    ensures records + [entries[0].record] + RecordsOf(entries[1..]) == records + RecordsOf(entries)
    ensures snapshots + SnapshotsOf(entries[1..]) == snapshots + SnapshotsOf(entries)
  {
    var tail := RecordsOf(entries[1..]);
    assert RecordsOf(entries) == [entries[0].record] + tail;
    ConcatAssociative(records, [entries[0].record], tail);
    assert SnapshotsOf(entries) == [] + SnapshotsOf(entries[1..]);
    assert [] + SnapshotsOf(entries[1..]) == SnapshotsOf(entries[1..]);
  }

  /** A snapshot entry in front adds its snapshot in front of the others' snapshots, and no record. */
  lemma SnapshotInFront(entries: seq<Entry>, records: seq<Record>, snapshots: seq<Snapshot>)
    requires |entries| > 0 && entries[0].SnapshotEntry?
    ensures snapshots + [entries[0].snapshot] + SnapshotsOf(entries[1..]) == snapshots + SnapshotsOf(entries)
    ensures records + RecordsOf(entries[1..]) == records + RecordsOf(entries)
  {
    var tail := SnapshotsOf(entries[1..]);
    assert SnapshotsOf(entries) == [entries[0].snapshot] + tail;
    ConcatAssociative(snapshots, [entries[0].snapshot], tail);
    assert RecordsOf(entries) == [] + RecordsOf(entries[1..]);
    assert [] + RecordsOf(entries[1..]) == RecordsOf(entries[1..]);
  }

  /** Every record and every snapshot among the entries is kept, in file order. */
  lemma {:induction false} EntriesSplit(entries: seq<Entry>)
    ensures |RecordsOf(entries)| + |SnapshotsOf(entries)| == |entries|
    ensures forall r :: r in RecordsOf(entries) <==> RecordEntry(r) in entries
    ensures forall s :: s in SnapshotsOf(entries) <==> SnapshotEntry(s) in entries
  {
    if |entries| > 0 {
      EntriesSplit(entries[1..]);
      assert entries == [entries[0]] + entries[1..];
    }
  }
}
