// Transportable and RawTransportData (src/network/network_transportable.cpp):
// the framing of network messages. A frame is a 12-byte header (protocol
// version, serial UUID and data size, three u32 words in host byte order,
// little-endian here), the data, and a u32 CRC32 checksum of the data.
// crc32::update with its table is a parameter: the CRC32 implementation is
// not part of this model.

module NetworkTransportables {
  import opened Bytes
  import opened Wrappers

  const ProtocolVersion: u32 := 1
  const ChecksumSize: nat := 4
  const HeaderSize: nat := 12

  /** crc32::update applied to one byte: the next CRC from the current one. */
  type Crc = (u32, u8) -> u32

  /** Transportable::checksum: the CRC of the bytes, fed one at a time starting from 0. */
  function Checksum(update: Crc, data: seq<u8>): u32
  {
    if |data| == 0 then 0 else update(Checksum(update, data[..|data| - 1]), data[|data| - 1])
  }

  /** The CRC of a longer buffer continues from the CRC of its first part. */
  lemma {:induction false} ChecksumSnoc(update: Crc, data: seq<u8>, b: u8)
    ensures Checksum(update, data + [b]) == update(Checksum(update, data), b)
  {
    assert (data + [b])[..|data|] == data;
  }

  /** The u32 stored at pos (four bytes, least significant first). */
  function Word(data: seq<u8>, pos: nat): (r: u32)
    requires pos + 4 <= |data|
  {
    data[pos] as int + 0x100 * data[pos + 1] as int + 0x1_0000 * data[pos + 2] as int
    + 0x100_0000 * data[pos + 3] as int
  }

  /** The four bytes of a u32 in memory, least significant first. */
  function WordBytes(x: u32): (r: seq<u8>)
    ensures |r| == 4
  {
    [x % 0x100, x / 0x100 % 0x100, x / 0x1_0000 % 0x100, x / 0x100_0000 % 0x100]
  }

  /** They are the little-endian layout of the u32. */
  lemma WordBytesLE(x: u32)
    ensures WordBytes(x) == ToLE(x, 4)
  {
    assert x / 0x100 / 0x100 == x / 0x1_0000;
    assert x / 0x1_0000 / 0x100 == x / 0x100_0000;
    assert x / 0x100_0000 / 0x100 == 0;
    assert ToLE(x / 0x100_0000, 1) == [x / 0x100_0000 % 0x100];
    assert ToLE(x / 0x1_0000, 2) == [x / 0x1_0000 % 0x100] + ToLE(x / 0x100_0000, 1);
    assert ToLE(x / 0x100, 3) == [x / 0x100 % 0x100] + ToLE(x / 0x1_0000, 2);
  }

  /** The four bytes of a u32 add up to it again. */
  lemma WordBytesValue(x: u32)
    ensures var b := WordBytes(x); b[0] as int + 0x100 * b[1] as int + 0x1_0000 * b[2] as int + 0x100_0000 * b[3] as int == x
  {
    var a := x / 0x100;
    var b := x / 0x1_0000;
    var c := x / 0x100_0000;
    assert x == x % 0x100 + 0x100 * a;
    assert a / 0x100 == b && b / 0x100 == c;
    assert a == a % 0x100 + 0x100 * b;
    assert b == b % 0x100 + 0x100 * c;
    assert c % 0x100 == c;
  }

  /** The word read back where x was stored is x. */
  lemma WordOf(data: seq<u8>, pos: nat, x: u32)
    requires pos + 4 <= |data| && data[pos..pos + 4] == WordBytes(x)
    ensures Word(data, pos) == x
  {
    var b := WordBytes(x);
    assert data[pos] == b[0] && data[pos + 1] == b[1] && data[pos + 2] == b[2] && data[pos + 3] == b[3];
    WordBytesValue(x);
  }

  /** The decoded header: protocol version, serial UUID and data size. */
  datatype Header = Header(version: u32, uuid: u32, dataSize: u32)

  /**
   * The errors of read_header, read_checksum and from_raw_bytes; Message
   * gives the text the source returns for each.
   */
  datatype NetError =
    | ShortHeader
    | VersionMismatch(received: u32)
    | ShortData
    | ShortChecksum
    | ChecksumMismatch(read: u32, calculated: u32)
    | InFromRawBytes(inner: NetError)

  function Message(e: NetError): string
  {
    match e
    case ShortHeader => "couldn't read header, since the raw data is to small"
    case VersionMismatch(received) =>
      "couldn't parse header, since the protocol version mismatches: parser can parse: "
      + Decimal(ProtocolVersion) + "but received: " + Decimal(received)
    case ShortData => "couldn't read data, since the raw data is to small"
    case ShortChecksum => "couldn't read checksum, since the raw data is to small"
    case ChecksumMismatch(read, calculated) =>
      "couldn't read data, since the checksum mismatches: read checksum: " + Hex(read)
      + "but calculated checksum: " + Hex(calculated)
    case InFromRawBytes(inner) => "in RawTransportData::from_raw_bytes: " + Message(inner)
  }

  /**
   * RawTransportData::read_header: fails on fewer than 12 bytes and on a
   * protocol version other than 1, and otherwise gives the three words.
   */
  function ReadHeader(data: seq<u8>): Result<Header, NetError>
  {
    if |data| < HeaderSize then Err(ShortHeader)
    else if Word(data, 0) != ProtocolVersion then Err(VersionMismatch(Word(data, 0)))
    else Ok(Header(Word(data, 0), Word(data, 4), Word(data, 8)))
  }

  /** read_header fails exactly on short input and on a foreign protocol version, with their messages. */
  lemma ReadHeaderCases(data: seq<u8>)
    ensures |data| < HeaderSize ==> ReadHeader(data) == Err(ShortHeader)
    ensures |data| >= HeaderSize && Word(data, 0) != ProtocolVersion
            ==> ReadHeader(data) == Err(VersionMismatch(Word(data, 0)))
    ensures |data| >= HeaderSize && Word(data, 0) == ProtocolVersion
            ==> ReadHeader(data) == Ok(Header(ProtocolVersion, Word(data, 4), Word(data, 8)))
  {
  }

  /** The 12 bytes write_header stores: version 1, the UUID and the data size. */
  function HeaderBytes(uuid: u32, dataSize: u32): (r: seq<u8>)
    ensures |r| == HeaderSize
  {
    WordBytes(ProtocolVersion) + WordBytes(uuid) + WordBytes(dataSize)
  }

  /** A written header, whatever follows it, reads back as version 1 with its UUID and data size. */
  lemma ReadWrittenHeader(uuid: u32, dataSize: u32, rest: seq<u8>)
    ensures ReadHeader(HeaderBytes(uuid, dataSize) + rest) == Ok(Header(ProtocolVersion, uuid, dataSize))
  {
    var data := HeaderBytes(uuid, dataSize) + rest;
    assert data[0..4] == WordBytes(ProtocolVersion);
    assert data[4..8] == WordBytes(uuid);
    assert data[8..12] == WordBytes(dataSize);
    WordOf(data, 0, ProtocolVersion);
    WordOf(data, 4, uuid);
    WordOf(data, 8, dataSize);
  }

  /** Storing one u32 at pos of a buffer changes those four bytes and no others. */
  method StoreWord(bytes: array<u8>, pos: nat, x: u32)
    requires pos + 4 <= bytes.Length
    modifies bytes
    ensures bytes[..] == old(bytes[..pos]) + WordBytes(x) + old(bytes[pos + 4..])
  {
    bytes[pos] := x % 0x100;
    bytes[pos + 1] := x / 0x100 % 0x100;
    bytes[pos + 2] := x / 0x1_0000 % 0x100;
    bytes[pos + 3] := x / 0x100_0000 % 0x100;
  }

  const HeaderSizeMismatch := "Wrong call of Transportable::write_header : header size mismatch"

  /**
   * Transportable::write_header: refuses (the source throws) a buffer that is
   * not exactly 12 bytes long, and otherwise fills it with the header.
   */
  method WriteHeader(bytes: array<u8>, uuid: u32, dataSize: u32) returns (r: Result<(), string>)
    modifies bytes
    ensures bytes.Length != HeaderSize ==> r == Err(HeaderSizeMismatch) && bytes[..] == old(bytes[..])
    ensures bytes.Length == HeaderSize ==> r == Ok(()) && bytes[..] == HeaderBytes(uuid, dataSize)
  {
    if bytes.Length != HeaderSize {
      return Err(HeaderSizeMismatch);
    }
    StoreWord(bytes, 0, ProtocolVersion);
    StoreWord(bytes, 4, uuid);
    StoreWord(bytes, 8, dataSize);
    return Ok(());
  }

  /** Transportable::checksum over the first length bytes of a buffer, one byte at a time. */
  method ComputeChecksum(update: Crc, bytes: array<u8>, length: nat) returns (crc: u32)
    requires length <= bytes.Length
    ensures crc == Checksum(update, bytes[..length])
  {
    crc := 0;
    for i := 0 to length
      invariant crc == Checksum(update, bytes[..i])
    {
      ChecksumSnoc(update, bytes[..i], bytes[i]);
      assert bytes[..i + 1] == bytes[..i] + [bytes[i]];
      crc := update(crc, bytes[i]);
    }
  }

  /**
   * Transportable::write_checksum: the last four bytes of the buffer receive
   * the CRC of all the bytes before them.
   */
  method WriteChecksum(update: Crc, bytes: array<u8>)
    requires bytes.Length >= ChecksumSize
    modifies bytes
    ensures bytes[..] == old(bytes[..bytes.Length - ChecksumSize])
                         + WordBytes(Checksum(update, old(bytes[..bytes.Length - ChecksumSize])))
  {
    var dataSize := bytes.Length - ChecksumSize;
    var crc := ComputeChecksum(update, bytes, dataSize);
    StoreWord(bytes, dataSize, crc);
    assert bytes[dataSize + 4..] == [];
  }

  /**
   * RawTransportData::read_checksum, given the bytes from the start of the
   * data: fails when the data and a checksum do not fit, and when the stored
   * checksum differs from the CRC of the data; otherwise gives the checksum.
   */
  function ReadChecksum(update: Crc, data: seq<u8>, dataSize: u32): Result<u32, NetError>
  {
    if |data| < dataSize + ChecksumSize then Err(ShortChecksum)
    else
      var calculated := Checksum(update, data[..dataSize]);
      var read := Word(data, dataSize);
      if read != calculated then Err(ChecksumMismatch(read, calculated)) else Ok(read)
  }

  /**
   * read_checksum fails on data too short for the checksum, fails when the
   * stored word is not the CRC of the data, and otherwise gives that CRC.
   */
  lemma ReadChecksumCases(update: Crc, data: seq<u8>, dataSize: u32)
    ensures |data| < dataSize + ChecksumSize ==> ReadChecksum(update, data, dataSize) == Err(ShortChecksum)
    ensures ReadChecksum(update, data, dataSize).Ok?
            <==> |data| >= dataSize + ChecksumSize && Word(data, dataSize) == Checksum(update, data[..dataSize])
    ensures ReadChecksum(update, data, dataSize).Ok?
            ==> ReadChecksum(update, data, dataSize).value == Checksum(update, data[..dataSize])
  {
  }

  /** A checksum written after the data by write_checksum is read back and accepted. */
  lemma ReadWrittenChecksum(update: Crc, data: seq<u8>, rest: seq<u8>)
    requires |data| < U32Limit
    ensures ReadChecksum(update, data + WordBytes(Checksum(update, data)) + rest, |data|) == Ok(Checksum(update, data))
  {
    var all := data + WordBytes(Checksum(update, data)) + rest;
    assert all[..|data|] == data;
    assert all[|data|..|data| + 4] == WordBytes(Checksum(update, data));
    WordOf(all, |data|, Checksum(update, data));
  }

  /** A RawTransportData: the serial UUID and the data (its size is the length of the data). */
  datatype Frame = Frame(uuid: u32, data: seq<u8>)

  /** A parsed frame and the offset just after it. */
  datatype Step = Step(frame: Frame, next: nat)

  /**
   * One round of the from_raw_bytes loop at offset pos: the header is read
   * from the remaining bytes, the data it announces is taken, and the parser
   * moves on by 12 + data size + 4 bytes. Errors carry the from_raw_bytes
   * prefix.
   */
  function NextFrame(data: seq<u8>, pos: nat): (r: Result<Step, NetError>)
    requires pos < |data|
    ensures r.Ok? ==> pos + HeaderSize + |r.value.frame.data| <= |data| && |r.value.frame.data| < U32Limit
    ensures r.Ok? ==> r.value.next == pos + HeaderSize + |r.value.frame.data| + ChecksumSize
  {
    var header := ReadHeader(data[pos..]);
    if header.Err? then Err(InFromRawBytes(header.error))
    else
      var start := pos + HeaderSize;
      var size := header.value.dataSize;
      if |data| - start < size then Err(InFromRawBytes(ShortData))
      else Ok(Step(Frame(header.value.uuid, data[start..start + size]), start + size + ChecksumSize))
  }

  /** The frames parsed so far, put in front of the result of parsing the rest. */
  function Collect(acc: seq<Frame>, r: Result<seq<Frame>, NetError>): Result<seq<Frame>, NetError>
  {
    if r.Ok? then Ok(acc + r.value) else r
  }

  /** Moving one frame from the parse of the rest to the frames parsed so far keeps the whole. */
  lemma CollectStep(whole: Result<seq<Frame>, NetError>, acc: seq<Frame>, f: Frame,
                    r: Result<seq<Frame>, NetError>, rest: Result<seq<Frame>, NetError>)
    requires Collect(acc, r) == whole && r == Collect([f], rest)
    ensures Collect(acc + [f], rest) == whole
  {
    if rest.Ok? {
      assert acc + ([f] + rest.value) == acc + [f] + rest.value;
    }
  }

  /**
   * RawTransportData::from_raw_bytes from offset pos: frames are read while
   * bytes remain, and the first error ends the parse. The checksum is not
   * looked at, so a frame whose checksum is wrong or cut short is accepted.
   */
  function ParseFrames(data: seq<u8>, pos: nat): Result<seq<Frame>, NetError>
    decreases |data| - pos
  {
    if pos >= |data| then Ok([])
    else
      var step := NextFrame(data, pos);
      if step.Err? then Err(step.error)
      else Collect([step.value.frame], ParseFrames(data, step.value.next))
  }

  /**
   * The body of the from_raw_bytes loop at offset start: the header, the
   * check that the announced data fits, the copy of the data, and the
   * read_checksum call whose result the source does not use.
   */
  method ReadFrame(update: Crc, data: seq<u8>, start: nat) returns (r: Result<Step, NetError>)
    requires start < |data|
    ensures r == NextFrame(data, start)
  {
    var header := ReadHeader(data[start..]);
    if header.Err? {
      return Err(InFromRawBytes(header.error));
    }
    var dataStart := start + HeaderSize;
    var remaining := |data| - dataStart;
    var size := header.value.dataSize;
    if remaining < size {
      return Err(InFromRawBytes(ShortData));
    }
    var payload := data[dataStart..dataStart + size];
    var checksum := ReadChecksum(update, data[dataStart..], size);
    return Ok(Step(Frame(header.value.uuid, payload), dataStart + size + ChecksumSize));
  }

  /**
   * from_raw_bytes over a buffer of u32 length: the loop advances the start
   * and the (signed) remaining length as the source does; frames are
   * appended in order and the first error is returned.
   */
  method FromRawBytes(update: Crc, data: seq<u8>) returns (r: Result<seq<Frame>, NetError>)
    requires |data| < U32Limit
    ensures r == ParseFrames(data, 0)
  {
    var result: seq<Frame> := [];
    var start: nat := 0;
    var remaining: int := |data|;
    assert Collect(result, ParseFrames(data, 0)) == ParseFrames(data, 0) by {
      if ParseFrames(data, 0).Ok? {
        assert [] + ParseFrames(data, 0).value == ParseFrames(data, 0).value;
      }
    }
    while remaining > 0
      invariant remaining == |data| - start
      invariant Collect(result, ParseFrames(data, start)) == ParseFrames(data, 0)
      decreases remaining
    {
      var step := ReadFrame(update, data, start);
      if step.Err? {
        return Err(step.error);
      }
      ghost var frameStart := start;
      var size := |step.value.frame.data|;
      start := start + HeaderSize;
      remaining := remaining - HeaderSize;
      start := start + size + ChecksumSize;
      remaining := remaining - (size + ChecksumSize);
      ParseStep(data, frameStart, step.value.frame, start);
      CollectStep(ParseFrames(data, 0), result, step.value.frame, ParseFrames(data, frameStart), ParseFrames(data, start));
      result := result + [step.value.frame];
    }
    assert result + [] == result;
    return Ok(result);
  }

  /** A frame read at pos is put in front of the frames that follow it. */
  lemma ParseStep(data: seq<u8>, pos: nat, f: Frame, next: nat)
    requires pos < |data| && NextFrame(data, pos) == Ok(Step(f, next))
    ensures ParseFrames(data, pos) == Collect([f], ParseFrames(data, next))
  {
  }

  /** A frame that ends the buffer is the last one. */
  lemma ParseLast(data: seq<u8>, pos: nat, f: Frame, next: nat)
    requires pos < |data| <= next && NextFrame(data, pos) == Ok(Step(f, next))
    ensures ParseFrames(data, pos) == Ok([f])
  {
    ParseStep(data, pos, f, next);
    assert [f] + [] == [f];
  }

  /** The bytes of one frame as read_header and read_checksum accept them. */
  function FrameBytes(update: Crc, f: Frame): (r: seq<u8>)
    requires |f.data| < U32Limit
    ensures |r| == HeaderSize + |f.data| + ChecksumSize
  {
    HeaderBytes(f.uuid, |f.data|) + f.data + WordBytes(Checksum(update, f.data))
  }

  predicate Sendable(frames: seq<Frame>)
  {
    forall i :: 0 <= i < |frames| ==> |frames[i].data| < U32Limit
  }

  /** The frames one after the other. */
  function Encode(update: Crc, frames: seq<Frame>): seq<u8>
    requires Sendable(frames)
  {
    if |frames| == 0 then [] else FrameBytes(update, frames[0]) + Encode(update, frames[1..])
  }

  /** What follows a prefix at pos is the rest. */
  lemma After(data: seq<u8>, pos: nat, prefix: seq<u8>, rest: seq<u8>)
    requires pos <= |data| && data[pos..] == prefix + rest
    ensures pos + |prefix| <= |data| && data[pos + |prefix|..] == rest
  {
    assert data[pos + |prefix|..] == data[pos..][|prefix|..];
  }

  /** A header for data of the given length, followed by that data, is one frame to the parser. */
  lemma NextFrameAt(data: seq<u8>, pos: nat, uuid: u32, payload: seq<u8>, tail: seq<u8>)
    requires |payload| < U32Limit && pos <= |data|
    requires data[pos..] == HeaderBytes(uuid, |payload|) + (payload + tail)
    ensures pos < |data|
    ensures NextFrame(data, pos) == Ok(Step(Frame(uuid, payload), pos + HeaderSize + |payload| + ChecksumSize))
  {
    var n := |payload|;
    ReadWrittenHeader(uuid, n, payload + tail);
    After(data, pos, HeaderBytes(uuid, n), payload + tail);
    var d := data[pos + HeaderSize..];
    assert d[..n] == payload;
    assert data[pos + HeaderSize..pos + HeaderSize + n] == d[..n];
  }

  /** One step of the round trip: a frame at pos is parsed and the parser goes on after it. */
  lemma RoundTripStep(update: Crc, data: seq<u8>, pos: nat, f: Frame, rest: seq<u8>, next: nat)
    requires |f.data| < U32Limit && pos <= |data| && data[pos..] == FrameBytes(update, f) + rest
    requires next == pos + HeaderSize + |f.data| + ChecksumSize
    ensures next <= |data| && data[next..] == rest
    ensures ParseFrames(data, pos) == Collect([f], ParseFrames(data, next))
  {
    var c := WordBytes(Checksum(update, f.data));
    assert data[pos..] == HeaderBytes(f.uuid, |f.data|) + (f.data + (c + rest));
    NextFrameAt(data, pos, f.uuid, f.data, c + rest);
    ParseStep(data, pos, f, next);
    After(data, pos, FrameBytes(update, f), rest);
  }

  lemma Cons(r: Result<seq<Frame>, NetError>, rest: Result<seq<Frame>, NetError>, f: Frame, tail: seq<Frame>, frames: seq<Frame>)
    requires r == Collect([f], rest) && rest == Ok(tail) && frames == [f] + tail
    ensures r == Ok(frames)
  {
  }

  /** Encoded frames parse back to the same frames in the same order. */
  lemma {:induction false} FramesRoundTripFrom(update: Crc, data: seq<u8>, pos: nat, frames: seq<Frame>)
    requires Sendable(frames) && pos <= |data| && data[pos..] == Encode(update, frames)
    ensures ParseFrames(data, pos) == Ok(frames)
    decreases |frames|
  {
    if |frames| > 0 {
      var next := pos + HeaderSize + |frames[0].data| + ChecksumSize;
      RoundTripStep(update, data, pos, frames[0], Encode(update, frames[1..]), next);
      FramesRoundTripFrom(update, data, next, frames[1..]);
      assert frames == [frames[0]] + frames[1..];
      Cons(ParseFrames(data, pos), ParseFrames(data, next), frames[0], frames[1..], frames);
    } else {
      assert |data[pos..]| == 0;
    }
  }

  lemma FramesRoundTrip(update: Crc, frames: seq<Frame>)
    requires Sendable(frames)
    ensures ParseFrames(Encode(update, frames), 0) == Ok(frames)
  {
    var data := Encode(update, frames);
    assert data[0..] == data;
    FramesRoundTripFrom(update, data, 0, frames);
  }

  /** A header that announces more data than the buffer holds makes the whole parse fail. */
  lemma OversizedData(data: seq<u8>, pos: nat)
    requires pos < |data| && ReadHeader(data[pos..]).Ok?
    requires ReadHeader(data[pos..]).value.dataSize > |data| - (pos + HeaderSize)
    ensures ParseFrames(data, pos) == Err(InFromRawBytes(ShortData))
  {
  }

  /**
   * from_raw_bytes as written accepts a header with no checksum after it: the
   * 12 bytes of a header for empty data parse as one frame. In the source this
   * also needs malloc(0) to return a non-null pointer, which the C standard
   * leaves to the implementation; the model's allocation never fails.
   */
  lemma TruncatedChecksumAccepted(uuid: u32)
    ensures ParseFrames(HeaderBytes(uuid, 0), 0) == Ok([Frame(uuid, [])])
  {
    var data := HeaderBytes(uuid, 0);
    assert data[0..] == HeaderBytes(uuid, 0) + ([] + []);
    NextFrameAt(data, 0, uuid, [], []);
    ParseLast(data, 0, Frame(uuid, []), HeaderSize + ChecksumSize);
  }

  /** ... and it accepts any four bytes as the checksum of the data. */
  lemma WrongChecksumAccepted(data: seq<u8>, uuid: u32, payload: seq<u8>, c: seq<u8>)
    requires |payload| < U32Limit && |c| == ChecksumSize
    requires data == HeaderBytes(uuid, |payload|) + payload + c
    ensures ParseFrames(data, 0) == Ok([Frame(uuid, payload)])
  {
    assert data[0..] == HeaderBytes(uuid, |payload|) + (payload + c);
    NextFrameAt(data, 0, uuid, payload, c);
    ParseLast(data, 0, Frame(uuid, payload), |data|);
  }

  /**
   * One round of from_raw_bytes as evidently intended: the result of
   * read_checksum is checked, so a frame whose checksum is missing or wrong
   * is an error. A frame it accepts is the one the unchecked round takes.
   */
  function NextFrameChecked(update: Crc, data: seq<u8>, pos: nat): (r: Result<Step, NetError>)
    requires pos < |data|
    ensures r.Ok? ==> r == NextFrame(data, pos)
    ensures r.Ok? ==> ReadChecksum(update, data[pos + HeaderSize..], |r.value.frame.data|).Ok?
  {
    var step := NextFrame(data, pos);
    if step.Err? then step
    else
      var checksum := ReadChecksum(update, data[pos + HeaderSize..], |step.value.frame.data|);
      if checksum.Err? then Err(InFromRawBytes(checksum.error)) else step
  }

  /** from_raw_bytes with every frame's checksum checked. */
  function ParseFramesChecked(update: Crc, data: seq<u8>, pos: nat): Result<seq<Frame>, NetError>
    decreases |data| - pos
  {
    if pos >= |data| then Ok([])
    else
      var step := NextFrameChecked(update, data, pos);
      if step.Err? then Err(step.error)
      else Collect([step.value.frame], ParseFramesChecked(update, data, step.value.next))
  }

  /** Whatever the checked parser accepts, the parser as written reads the same way. */
  lemma {:induction false} CheckedAgreesWhenAccepted(update: Crc, data: seq<u8>, pos: nat)
    requires ParseFramesChecked(update, data, pos).Ok?
    ensures ParseFrames(data, pos) == ParseFramesChecked(update, data, pos)
    decreases |data| - pos
  {
    if pos < |data| {
      CheckedAgreesWhenAccepted(update, data, NextFrameChecked(update, data, pos).value.next);
    }
  }

  /** The checked parser rejects a header with no checksum after it. */
  lemma TruncatedChecksumRejected(update: Crc, uuid: u32)
    ensures ParseFramesChecked(update, HeaderBytes(uuid, 0), 0) == Err(InFromRawBytes(ShortChecksum))
  {
    var data := HeaderBytes(uuid, 0);
    assert data[0..] == HeaderBytes(uuid, 0) + ([] + []);
    NextFrameAt(data, 0, uuid, [], []);
    assert |data[HeaderSize..]| == 0;
  }

  /** A stored checksum that is not the CRC of the data is reported with both values. */
  lemma ReadWrongChecksum(update: Crc, payload: seq<u8>, c: u32)
    requires |payload| < U32Limit && c != Checksum(update, payload)
    ensures ReadChecksum(update, payload + WordBytes(c), |payload|) == Err(ChecksumMismatch(c, Checksum(update, payload)))
  {
    var all := payload + WordBytes(c);
    var n := |payload|;
    assert all[..n] == payload;
    assert all[n..n + 4] == WordBytes(c);
    WordOf(all, n, c);
    var calculated := Checksum(update, all[..n]);
    assert calculated == Checksum(update, payload);
    assert Word(all, n) != calculated;
  }

  /** The checked parser rejects a frame whose stored checksum is not the CRC of its data. */
  lemma WrongChecksumRejected(data: seq<u8>, update: Crc, uuid: u32, payload: seq<u8>, c: u32)
    requires |payload| < U32Limit && c != Checksum(update, payload)
    requires data == HeaderBytes(uuid, |payload|) + payload + WordBytes(c)
    ensures ParseFramesChecked(update, data, 0) == Err(InFromRawBytes(ChecksumMismatch(c, Checksum(update, payload))))
  {
    assert data[0..] == HeaderBytes(uuid, |payload|) + (payload + WordBytes(c));
    NextFrameAt(data, 0, uuid, payload, WordBytes(c));
    After(data, 0, HeaderBytes(uuid, |payload|), payload + WordBytes(c));
    ReadWrongChecksum(update, payload, c);
  }

  /** A frame with its checksum passes the checked round. */
  lemma NextFrameCheckedAt(update: Crc, data: seq<u8>, pos: nat, f: Frame, rest: seq<u8>, next: nat)
    requires |f.data| < U32Limit && pos <= |data| && data[pos..] == FrameBytes(update, f) + rest
    requires next == pos + HeaderSize + |f.data| + ChecksumSize
    ensures pos < |data|
    ensures NextFrameChecked(update, data, pos) == Ok(Step(f, next))
  {
    var c := WordBytes(Checksum(update, f.data));
    assert data[pos..] == HeaderBytes(f.uuid, |f.data|) + (f.data + (c + rest));
    NextFrameAt(data, pos, f.uuid, f.data, c + rest);
    After(data, pos, HeaderBytes(f.uuid, |f.data|), f.data + c + rest);
    ReadWrittenChecksum(update, f.data, rest);
  }

  /** A frame the checked round accepts is put in front of the frames that follow it. */
  lemma ParseStepChecked(update: Crc, data: seq<u8>, pos: nat, f: Frame, next: nat)
    requires pos < |data| && NextFrameChecked(update, data, pos) == Ok(Step(f, next))
    ensures ParseFramesChecked(update, data, pos) == Collect([f], ParseFramesChecked(update, data, next))
  {
  }

  /** One step of the checked round trip. */
  lemma CheckedRoundTripStep(update: Crc, data: seq<u8>, pos: nat, f: Frame, rest: seq<u8>, next: nat)
    requires |f.data| < U32Limit && pos <= |data| && data[pos..] == FrameBytes(update, f) + rest
    requires next == pos + HeaderSize + |f.data| + ChecksumSize
    ensures next <= |data| && data[next..] == rest
    ensures ParseFramesChecked(update, data, pos) == Collect([f], ParseFramesChecked(update, data, next))
  {
    NextFrameCheckedAt(update, data, pos, f, rest, next);
    ParseStepChecked(update, data, pos, f, next);
    After(data, pos, FrameBytes(update, f), rest);
  }

  /** Encoded frames, with their checksums, pass the checked parser unchanged. */
  lemma {:induction false} CheckedRoundTripFrom(update: Crc, data: seq<u8>, pos: nat, frames: seq<Frame>)
    requires Sendable(frames) && pos <= |data| && data[pos..] == Encode(update, frames)
    ensures ParseFramesChecked(update, data, pos) == Ok(frames)
    decreases |frames|
  {
    if |frames| > 0 {
      var next := pos + HeaderSize + |frames[0].data| + ChecksumSize;
      CheckedRoundTripStep(update, data, pos, frames[0], Encode(update, frames[1..]), next);
      CheckedRoundTripFrom(update, data, next, frames[1..]);
      assert frames == [frames[0]] + frames[1..];
      Cons(ParseFramesChecked(update, data, pos), ParseFramesChecked(update, data, next), frames[0], frames[1..], frames);
    } else {
      assert |data[pos..]| == 0;
    }
  }

  lemma CheckedRoundTrip(update: Crc, frames: seq<Frame>)
    requires Sendable(frames)
    ensures ParseFramesChecked(update, Encode(update, frames), 0) == Ok(frames)
  {
    var data := Encode(update, frames);
    assert data[0..] == data;
    CheckedRoundTripFrom(update, data, 0, frames);
  }
}
