// recorder::RecordingWriter of src/libs/recordings/utility/recording_writer.cpp:
// writes the file header of a recording when it is created, then one entry per
// add_record / add_snapshot call. The file system is a parameter: whether the
// path exists and whether opening it succeeds. The supported version number,
// the information's hash and iteration order, and
// Recording::get_header_checksum are parameters too.

module RecordingWriters {
  import opened Bytes
  import opened Wrappers
  import opened StreamIO
  import opened InputEvents
  import opened MinoStacks
  import opened TetrionSnapshots
  import opened AdditionalInformations
  import opened Recordings

  class RecordingWriter {
    var output: OutputStream
    var headers: seq<TetrionHeader>
    var information: Info

    constructor (output: OutputStream, headers: seq<TetrionHeader>, information: Info)
      ensures this.output == output && this.headers == headers && this.information == information
    {
      this.output := output;
      this.headers := headers;
      this.information := information;
    }

    /**
     * get_writer: refuses an existing path when overwrite is set, opens the
     * file (truncating it when overwrite is not set) and writes the file header.
     */
    static method GetWriter(path: string, pathExists: bool, opens: bool, headers: seq<TetrionHeader>,
                            information: AdditionalInformation, overwrite: bool, supported: u8,
                            hash: seq<u8> -> Digest, order: seq<seq<u8>>, headerChecksum: HeaderChecksum)
      returns (r: Result<RecordingWriter, string>)
      requires IsEnumeration(order, information.values)
      ensures overwrite && pathExists ==> r == Err("file already exists, not overwriting it: \"" + path + "\"")
      ensures !(overwrite && pathExists) && !opens ==> r == Err("failed to open output file \"" + path + "\"")
      ensures !(overwrite && pathExists) && opens && Serialize(hash, information.values, order).Err? ==>
        r == Err(Serialize(hash, information.values, order).error)
      ensures r.Ok? <==> !(overwrite && pathExists) && opens && Serialize(hash, information.values, order).Ok?
      ensures r.Ok? ==> fresh(r.value) && fresh(r.value.output) && r.value.output.good
      ensures r.Ok? ==> r.value.headers == headers && r.value.information == information.values
      ensures r.Ok? ==> r.value.output.written == FileHeaderBytes(supported, headers,
        Serialize(hash, information.values, order).value, headerChecksum(supported, headers, information.values))
    {
      if overwrite && pathExists {
        return Err("file already exists, not overwriting it: \"" + path + "\"");
      }
      var file := new OutputStream(opens);
      if !file.good {
        return Err("failed to open output file \"" + path + "\"");
      }
      var result := file.WriteIntegral(MagicFileByte, 4);
      match result {
        case Err(e) => return Err("error while writing: " + e);
        case Ok(_) =>
      }
      result := file.WriteIntegral(supported, 1);
      match result {
        case Err(e) => return Err("error while writing: " + e);
        case Ok(_) =>
      }
      result := file.WriteIntegral(|headers| % 256, 1);
      match result {
        case Err(e) => return Err("error while writing: " + e);
        case Ok(_) =>
      }
      var i := 0;
      while i < |headers|
        invariant i <= |headers| && file.good
        invariant file.written == ToLE(MagicFileByte, 4) + ToLE(supported, 1) + ToLE(|headers| % 256, 1)
          + HeadersBytes(headers[..i])
      {
        result := WriteTetrionHeader(file, headers[i]);
        match result {
          case Err(e) => return Err(e);
          case Ok(_) =>
        }
        HeadersBytesSnoc(headers[..i], headers[i]);
        assert headers[..i + 1] == headers[..i] + [headers[i]];
        i := i + 1;
      }
      assert headers[..i] == headers;
      var informationBytes := information.ToBytes(hash, order);
      if informationBytes.Err? {
        return Err(informationBytes.error);
      }
      result := file.WriteVector(informationBytes.value, 1);
      match result {
        case Err(e) => return Err("error while writing: " + e);
        case Ok(_) =>
      }
      ConcatOneByte(informationBytes.value);
      var checksum := headerChecksum(supported, headers, information.values);
      result := WriteChecksum(file, checksum);
      match result {
        case Err(e) => return Err("error while writing: " + e);
        case Ok(_) =>
      }
      Pow256Widths();
      ToLEOne(supported);
      ToLEOne((|headers| % 256) as u8);
      FileHeaderLayout(supported, headers, informationBytes.value, checksum, file.written);
      var writer := new RecordingWriter(file, headers, information.values);
      r := Ok(writer);
    }

    /** add_record: the tag, the tetrion index, the step and the event, through write. */
    method AddRecord(tetrionIndex: u8, simulationStepIndex: u64, event: InputEvent) returns (r: Result<(), string>)
      requires tetrionIndex as nat < |headers|
      modifies output
      ensures output.good == old(output.good)
      ensures old(output.good) ==> r == Ok(())
      ensures old(output.good) ==> output.written == old(output.written) + RecordBytes(Record(tetrionIndex, simulationStepIndex, event))
      ensures !old(output.good) ==> r == Err("error while writing: failed to write data \"" + Decimal(TagRecord) + "\"")
      ensures !old(output.good) ==> output.written == old(output.written)
    {
      ghost var start := output.written;
      r := Write(TagRecord, 1);
      if r.Err? {
        return r;
      }
      r := Write(tetrionIndex, 1);
      if r.Err? {
        return r;
      }
      r := Write(simulationStepIndex, 8);
      if r.Err? {
        return r;
      }
      r := Write(EventIndex(event), 1);
      RecordLayout(start, Record(tetrionIndex, simulationStepIndex, event));
    }

    /** add_snapshot: the tag through write, then the snapshot's bytes through write_vector_to_file. */
    method AddSnapshot(simulationStepIndex: u64, core: CoreInformation) returns (r: Result<(), string>)
      modifies output
      ensures output.good == old(output.good)
      ensures old(output.good) ==> r == Ok(())
      ensures old(output.good) ==> output.written == old(output.written) + SnapshotEntryBytes(SnapshotOf(core, simulationStepIndex))
      ensures !old(output.good) ==> r == Err("error while writing: failed to write data \"" + Decimal(TagSnapshot) + "\"")
      ensures !old(output.good) ==> output.written == old(output.written)
    {
      ghost var start := output.written;
      r := Write(TagSnapshot, 1);
      if r.Err? {
        return r;
      }
      var snapshot := SnapshotOf(core, simulationStepIndex);
      var bytes := TetrionSnapshots.ToBytes(snapshot);
      ghost var tagged := output.written;
      var result := output.WriteVector(bytes, 1);
      SnapshotLayout(start, snapshot, bytes);
      assert output.written == tagged + ConcatLE(bytes, 1);
      match result {
        case Err(e) => r := Err(e);
        case Ok(_) => r := Ok(());
      }
    }

    /** write: write_integral_to_file on the output, its error prefixed with "error while writing: ". */
    method Write(data: nat, n: nat) returns (r: Result<(), string>)
      modifies output
      ensures output.good == old(output.good)
      ensures old(output.good) ==> r == Ok(()) && output.written == old(output.written) + ToLE(data, n)
      ensures !old(output.good) ==> r == Err("error while writing: failed to write data \"" + Decimal(data) + "\"")
      ensures !old(output.good) ==> output.written == old(output.written)
    {
      var result := output.WriteIntegral(data, n);
      if result.Err? {
        assert "error while writing: " + result.error
          == "error while writing: failed to write data \"" + Decimal(data) + "\"";
        return Err("error while writing: " + result.error);
      }
      r := Ok(());
    }
  }

  /** write_tetrion_header_to_file. */
  method WriteTetrionHeader(file: OutputStream, header: TetrionHeader) returns (r: Result<bool, string>)
    modifies file
    ensures file.good == old(file.good)
    ensures old(file.good) ==> r == Ok(true) && file.written == old(file.written) + TetrionHeaderBytes(header)
    ensures !old(file.good) ==> r == Err("failed to write data \"" + Decimal(header.seed) + "\"")
    ensures !old(file.good) ==> file.written == old(file.written)
  {
    r := file.WriteIntegral(header.seed, 8);
    if r.Err? {
      return r;
    }
    r := file.WriteIntegral(header.startingLevel, 4);
  }

  /** write_checksum_to_file: the 32 checksum bytes, one at a time. */
  method WriteChecksum(file: OutputStream, checksum: Digest) returns (r: Result<bool, string>)
    modifies file
    ensures file.good == old(file.good)
    ensures old(file.good) ==> r == Ok(true) && file.written == old(file.written) + checksum
    ensures !old(file.good) ==> r == Err("failed to write data \"" + Decimal(checksum[0]) + "\"")
    ensures !old(file.good) ==> file.written == old(file.written)
  {
    r := Ok(true);
    var i := 0;
    while i < |checksum|
      invariant i <= |checksum| && file.good == old(file.good) && r == Ok(true)
      invariant file.good ==> file.written == old(file.written) + checksum[..i]
      invariant !file.good ==> i == 0 && file.written == old(file.written)
    {
      r := file.WriteIntegral(checksum[i], 1);
      if r.Err? {
        return Err(r.error);
      }
      ToLEOne(checksum[i]);
      assert checksum[..i + 1] == checksum[..i] + [checksum[i]];
      i := i + 1;
    }
    assert checksum[..i] == checksum;
  }

  lemma {:induction false} HeadersBytesSnoc(headers: seq<TetrionHeader>, h: TetrionHeader)
    ensures HeadersBytes(headers + [h]) == HeadersBytes(headers) + TetrionHeaderBytes(h)
  {
    if |headers| == 0 {
      assert headers + [h] == [h];
    } else {
      assert (headers + [h])[1..] == headers[1..] + [h];
      HeadersBytesSnoc(headers[1..], h);
    }
  }

  /** The tag written through write, then the snapshot's bytes one byte each, are the snapshot entry. */
  lemma SnapshotLayout(prefix: seq<u8>, s: Snapshot, bytes: seq<u8>)
    requires bytes == SnapshotBytes(s)
    ensures prefix + ToLE(TagSnapshot, 1) + ConcatLE(bytes, 1) == prefix + SnapshotEntryBytes(s)
  {
    ConcatOneByte(bytes);
    ToLEOne(TagSnapshot);
    ConcatAssociative(prefix, [TagSnapshot], bytes);
  }

  /** The four writes of add_record, one after another, are the record's layout. */
  lemma RecordLayout(prefix: seq<u8>, r: Record)
    ensures prefix + ToLE(TagRecord, 1) + ToLE(r.tetrionIndex, 1) + ToLE(r.simulationStepIndex, 8) + ToLE(EventIndex(r.event), 1)
      == prefix + RecordBytes(r)
  {
    ToLEOne(TagRecord);
    ToLEOne(r.tetrionIndex);
    ToLEOne(EventIndex(r.event));
  }

  /** The bytes get_writer writes, one write after another, are the file header layout. */
  lemma FileHeaderLayout(version: u8, headers: seq<TetrionHeader>, info: seq<u8>, checksum: Digest, written: seq<u8>)
    requires ToLE(version, 1) == [version] && ToLE(|headers| % 256, 1) == [(|headers| % 256) as u8]
    requires written == ToLE(MagicFileByte, 4) + ToLE(version, 1) + ToLE(|headers| % 256, 1)
      + HeadersBytes(headers) + info + checksum
    ensures written == FileHeaderBytes(version, headers, info, checksum)
  {
  }
}
