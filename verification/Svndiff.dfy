/** The svndiff container (delta/svndiff_write.go, delta/svndiff_read.go): sections, windows
    and the encoder and decoder objects. The compressors are parameters. */
module Svndiff {
  import opened Bytes
  import opened Common
  import opened Window
  import I = Instructions
  import V = Varint

  const MAX_WINDOW_SIZE := 102400
  const MAX_INSTRUCTION_SECTION_SIZE := MAX_WINDOW_SIZE * 21
  const ZLIB_THRESHOLD := 512

  type Version = v: int | 0 <= v <= 2

  /** The compressors of versions 1 and 2, as total tables; a decompressor is a partial table,
      and fails outside its domain. */
  datatype Compressors = Compressors(
    zlib: imap<seq<byte>, seq<byte>>,
    unzlib: imap<seq<byte>, seq<byte>>,
    lz4: imap<seq<byte>, seq<byte>>,
    unlz4: imap<seq<byte>, seq<byte>>)

  ghost predicate Total(c: Compressors) {
    && (forall data: seq<byte> :: data in c.zlib)
    && (forall data: seq<byte> :: data in c.lz4)
  }

  type Codec = c: Compressors | Total(c) ghost witness Identity()

  function Unchanged(data: seq<byte>): seq<byte> { data }

  /** Compressors that never make anything shorter. */
  ghost function Identity(): Compressors {
    var same := imap data: seq<byte> :: Unchanged(data);
    Compressors(same, same, same, same)
  }

  ghost predicate Inverse(codec: Codec) {
    && (forall data: seq<byte> :: Restores(codec.unzlib, codec.zlib[data], data))
    && (forall data: seq<byte> :: Restores(codec.unlz4, codec.lz4[data], data))
  }

  ghost predicate Restores(decompress: imap<seq<byte>, seq<byte>>, compressed: seq<byte>, data: seq<byte>) {
    compressed in decompress && decompress[compressed] == data
  }

  datatype SvndiffError = UnexpectedEnd | CorruptWindow | BackwardView | InvalidCompressedData | BadInstructions

  // ----- sections -----

  /** What a section stores behind its length: the compressed form only where it is shorter. */
  function Payload(codec: Codec, version: Version, data: Slice): Slice {
    if version == 1 && |data| < ZLIB_THRESHOLD then data
    else
      var compressed := if version == 1 then codec.zlib[data] else codec.lz4[data];
      if |compressed| >= |data| then data else compressed
  }

  function EncodeSection(codec: Codec, version: Version, data: Slice): seq<byte> {
    if version == 0 then data else V.Encode(|data|) + Payload(codec, version, data)
  }

  method EncodeZlibSection(codec: Codec, data: Slice) returns (r: seq<byte>)
    ensures r == EncodeSection(codec, 1, data)
  {
    var header := V.AppendVarint([], |data|);
    assert header == V.Encode(|data|);
    var payload: seq<byte> := data;
    if |data| >= ZLIB_THRESHOLD {
      var compressed := codec.zlib[data];
      if |compressed| < |data| {
        payload := compressed;
      }
    }
    return header + payload;
  }

  method EncodeLz4Section(codec: Codec, data: Slice) returns (r: seq<byte>)
    ensures r == EncodeSection(codec, 2, data)
  {
    var header := V.AppendVarint([], |data|);
    assert header == V.Encode(|data|);
    var compressed := codec.lz4[data];
    var payload := if |compressed| >= |data| then data else compressed;
    return header + payload;
  }

  /** A section's contents; a payload of the original length is stored as it is. */
  function DecodeSection(codec: Codec, version: Version, encoded: seq<byte>, limit: nat): Result<seq<byte>, SvndiffError> {
    if version == 0 then Ok(encoded) else Unpack(codec, version, encoded, V.Consume(encoded, 0), limit)
  }

  /** The same behind the length that the section starts with. */
  function Unpack(codec: Codec, version: Version, encoded: seq<byte>, original: V.Outcome, limit: nat): Result<seq<byte>, SvndiffError>
    requires original.next <= |encoded|
  {
    if !original.Value? || original.value > limit then Err(InvalidCompressedData)
    else
      var payload := encoded[original.next..];
      if |payload| == original.value then Ok(payload)
      else
        var decompress := if version == 2 then codec.unlz4 else codec.unzlib;
        if payload in decompress && |decompress[payload]| == original.value then Ok(decompress[payload])
        else Err(InvalidCompressedData)
  }

  lemma {:induction false} UnpackPayload(codec: Codec, version: Version, header: seq<byte>, data: Slice, limit: nat)
    requires Inverse(codec) && version != 0
    ensures Unpack(codec, version, header + Payload(codec, version, data), V.Value(|data|, |header|), limit)
            == if |data| <= limit then Ok(data) else Err(InvalidCompressedData)
  {
    var payload := Payload(codec, version, data);
    assert (header + payload)[|header|..] == payload;
    assert Restores(codec.unzlib, codec.zlib[data], data) && Restores(codec.unlz4, codec.lz4[data], data);
  }

  lemma {:induction false} SectionHeader(length: uint64, payload: seq<byte>)
    ensures V.Consume(V.Encode(length) + payload, 0) == V.Value(length, |V.Encode(length)|)
  {
    V.RoundTrip([], length, payload);
    assert [] + V.Encode(length) + payload == V.Encode(length) + payload;
  }

  /** A section reads back exactly when its contents are within the decoder's limit; version 0
      leaves that limit to the window header. */
  lemma {:induction false} SectionRoundTrip(codec: Codec, version: Version, data: Slice, limit: nat)
    requires Inverse(codec)
    ensures DecodeSection(codec, version, EncodeSection(codec, version, data), limit)
            == if version == 0 || |data| <= limit then Ok(data) else Err(InvalidCompressedData)
  {
    if version != 0 {
      SectionHeader(|data|, Payload(codec, version, data));
      UnpackPayload(codec, version, V.Encode(|data|), data, limit);
    }
  }

  /** What the length in front of an uncompressed section costs. */
  lemma {:induction false} StoredSectionLength(codec: Codec, version: Version, data: Slice)
    requires version != 0 && Payload(codec, version, data) == data
    requires |data| <= 204800
    ensures |EncodeSection(codec, version, data)| <= 102400 <==> |data| <= 102397
  {
    assert V.Pow128(2) == 16384 && V.Pow128(3) == 2097152;
    V.EncodeLength(|data|, 2);
    V.EncodeLength(|data|, 3);
  }

  // ----- the encoder -----

  /** New data and encoded instructions are Go slices. */
  predicate GoSized(w: Window) {
    |w.newData| <= MAX_INT64 && 21 * |w.ops| <= MAX_INT64
  }

  function Header(w: Window, instructionLength: uint64, newDataLength: uint64): seq<uint64>
    requires w.sourceOffset >= 0 && w.sourceLength >= 0 && w.targetLength >= 0
  {
    [w.sourceOffset, w.sourceLength, w.targetLength, instructionLength, newDataLength]
  }

  lemma {:induction false} SectionIsSized(codec: Codec, version: Version, data: Slice)
    ensures |EncodeSection(codec, version, data)| < TWO_TO_THE_64
  {
    V.EncodeLengthUint64(|data|);
  }

  /** The instruction section before compression. */
  ghost function Instructions(w: Window): Slice
    requires Valid(w) && GoSized(w)
  {
    I.OpsFitEncodable(w.ops, w.sourceLength, |w.newData|);
    I.EncodeOpsCount(w.ops);
    I.EncodeOps(w.ops)
  }

  /** The bytes of one window. */
  ghost function EncodeWindow(codec: Codec, version: Version, w: Window): seq<byte>
    requires Valid(w) && GoSized(w)
  {
    SectionIsSized(codec, version, Instructions(w));
    SectionIsSized(codec, version, w.newData);
    var instructions := EncodeSection(codec, version, Instructions(w));
    var newData := EncodeSection(codec, version, w.newData);
    V.EncodeAll(Header(w, |instructions|, |newData|)) + (instructions + newData)
  }

  datatype WriteError = EncoderClosed | InvalidWindow(error: InvalidOps)

  class Encoder {
    const codec: Codec
    const version: Version
    var closed: bool
    var output: seq<byte>

    /** NewEncoder, for a supported version: writes the stream header. */
    constructor (codec: Codec, version: Version)
      ensures this.codec == codec && this.version == version
      ensures !closed && output == Magic(version)
    {
      this.codec := codec;
      this.version := version;
      closed := false;
      output := Magic(version);
    }

    method Close()
      modifies this
      ensures closed && output == old(output)
    {
      closed := true;
    }

    method WriteWindow(w: Window) returns (error: Option<WriteError>)
      requires GoSized(w)
      modifies this
      ensures closed == old(closed)
      ensures error.None? <==> !closed && Valid(w)
      ensures error.None? ==> output == old(output) + EncodeWindow(codec, version, w)
      ensures error.Some? ==> output == old(output)
    {
      if closed {
        return Some(EncoderClosed);
      }
      var invalid := Validate(w);
      if invalid.Some? {
        return Some(InvalidWindow(invalid.value));
      }
      I.OpsFitEncodable(w.ops, w.sourceLength, |w.newData|);
      var bytes := EncodeParts(codec, version, w);
      output := output + bytes;
      return None;
    }
  }

  /** Header, instructions and new data, which WriteWindow writes one behind the other. */
  method EncodeParts(codec: Codec, version: Version, w: Window)
    returns (bytes: seq<byte>)
    requires Valid(w) && GoSized(w)
    ensures bytes == EncodeWindow(codec, version, w)
  {
    I.OpsFitEncodable(w.ops, w.sourceLength, |w.newData|);
    I.EncodeOpsCount(w.ops);
    var encoded := I.EncodeInstructions(w.ops);
    var instructions, newData := encoded, w.newData;
    if version == 1 {
      instructions := EncodeZlibSection(codec, instructions);
      newData := EncodeZlibSection(codec, newData);
    } else if version == 2 {
      instructions := EncodeLz4Section(codec, instructions);
      newData := EncodeLz4Section(codec, newData);
    }
    SectionIsSized(codec, version, encoded);
    SectionIsSized(codec, version, w.newData);
    var header := EncodeHeader(w, |instructions|, |newData|);
    bytes := header + (instructions + newData);
  }

  method EncodeHeader(w: Window, instructionLength: uint64, newDataLength: uint64) returns (header: seq<byte>)
    requires w.sourceOffset >= 0 && w.sourceLength >= 0 && w.targetLength >= 0
    ensures header == V.EncodeAll(Header(w, instructionLength, newDataLength))
  {
    header := V.AppendVarint([], w.sourceOffset);
    header := V.AppendVarint(header, w.sourceLength);
    header := V.AppendVarint(header, w.targetLength);
    header := V.AppendVarint(header, instructionLength);
    header := V.AppendVarint(header, newDataLength);
    V.FiveEncoded(w.sourceOffset, w.sourceLength, w.targetLength, instructionLength, newDataLength);
  }

  function Magic(version: Version): seq<byte> {
    [0x53 as byte, 0x56, 0x4e, version]
  }

  // ----- the decoder -----

  datatype Outcome = End | Decoded(window: Window) | Failed(error: SvndiffError)

  /** A decoder between two calls: the cursor, and the last source offset once it has one. */
  datatype State = State(position: nat, lastSourceOffset: int64, started: bool)

  /** What a call returns, and the decoder it leaves behind. */
  datatype Reply = Reply(outcome: Outcome, state: State)

  datatype Body = Body(outcome: Outcome, next: nat)

  datatype SectionRead = SectionRead(contents: Result<seq<byte>, SvndiffError>, next: nat)

  function ReadSection(codec: Codec, version: Version, data: seq<byte>, position: nat, length: nat, limit: nat): (r: SectionRead)
    requires position <= |data|
    ensures position <= r.next <= |data|
  {
    if position + length > |data| then SectionRead(Err(UnexpectedEnd), |data|)
    else
      var encoded := data[position..position + length];
      SectionRead(DecodeSection(codec, version, encoded, limit), position + length)
  }

  predicate WithinLimits(header: seq<uint64>)
    requires |header| == 5
  {
    && header[0] <= MAX_INT64
    && header[1] <= MAX_WINDOW_SIZE && header[2] <= MAX_WINDOW_SIZE
    && header[3] <= MAX_INSTRUCTION_SECTION_SIZE && header[4] <= MAX_WINDOW_SIZE
  }

  /** What the header leads to: an end, or the body that starts at `next`. */
  datatype Stage = Stop(outcome: Outcome, position: nat) | Continue(header: seq<uint64>, next: nat)

  function HeaderAt(data: seq<byte>, state: State): (r: Stage)
    requires state.position <= |data|
    ensures r.Stop? ==> r.position <= |data| && !r.outcome.Decoded?
    ensures r.Continue? ==> state.position < r.next <= |data| && |r.header| == 5 && WithinLimits(r.header)
  {
    if state.position == |data| then Stop(End, state.position)
    else
      var row := V.ReadAll(data, state.position, 5, []);
      if !row.complete then Stop(Failed(UnexpectedEnd), row.next)
      else if !WithinLimits(row.values) then Stop(Failed(CorruptWindow), row.next)
      else if state.started && row.values[0] < state.lastSourceOffset then Stop(Failed(BackwardView), row.next)
      else Continue(row.values, row.next)
  }

  /** NextWindow as a function. */
  ghost function WindowAt(codec: Codec, version: Version, data: seq<byte>, state: State): (r: Reply)
    requires state.position <= |data|
    ensures r.state.position <= |data|
    ensures r.outcome.Decoded? ==> state.position < r.state.position
  {
    match HeaderAt(data, state)
    case Stop(outcome, position) => Reply(outcome, state.(position := position))
    case Continue(header, next) =>
      var body := ReadBody(codec, version, data, next, header);
      Reply(body.outcome, State(body.next, header[0], true))
  }

  /** The part behind the header. */
  ghost function ReadBody(codec: Codec, version: Version, data: seq<byte>, position: nat, header: seq<uint64>): (r: Body)
    requires position <= |data| && |header| == 5 && WithinLimits(header)
    ensures position <= r.next <= |data|
  {
    var instructions := ReadSection(codec, version, data, position, header[3], MAX_INSTRUCTION_SECTION_SIZE);
    if instructions.contents.Err? then Body(Failed(instructions.contents.error), instructions.next)
    else
      var newData := ReadSection(codec, version, data, instructions.next, header[4], MAX_WINDOW_SIZE);
      if newData.contents.Err? then Body(Failed(newData.contents.error), newData.next)
      else Body(Assemble(header, instructions.contents.value, newData.contents.value), newData.next)
  }

  /** The window that the two sections make up, if they do. */
  ghost function Assemble(header: seq<uint64>, instructions: seq<byte>, newData: seq<byte>): Outcome
    requires |header| == 5 && WithinLimits(header)
  {
    match I.Decoded(instructions, header[1], header[2], |newData|)
    case None => Failed(BadInstructions)
    case Some(ops) => Decoded(Window(header[0], header[1], header[2], ops, newData))
  }

  class Decoder {
    const codec: Codec
    const version: Version
    const reader: V.ByteReader
    var lastSourceOffset: int64
    var started: bool

    /** NewDecoder, behind the header check. */
    constructor (codec: Codec, version: Version, reader: V.ByteReader)
      ensures this.codec == codec && this.version == version && this.reader == reader
      ensures !started && lastSourceOffset == 0
    {
      this.codec := codec;
      this.version := version;
      this.reader := reader;
      lastSourceOffset := 0;
      started := false;
    }

    ghost predicate Ready()
      reads this, reader
    {
      reader.Valid()
    }

    ghost function Now(): State
      reads this, reader
      requires Ready()
    {
      State(reader.position, lastSourceOffset, started)
    }

    method ReadHeader() returns (row: V.Row)
      requires Ready()
      modifies reader
      ensures Ready()
      ensures row == V.ReadAll(reader.data, old(reader.position), 5, []) && reader.position == row.next
    {
      var values: seq<uint64> := [];
      for index := 0 to 5
        invariant Ready()
        invariant |values| == index
        invariant V.ReadAll(reader.data, old(reader.position), 5, [])
                  == V.ReadAll(reader.data, reader.position, 5 - index, values)
      {
        var value := V.ReadVarint(reader);
        if !value.Value? {
          return V.Row(values, reader.position, false);
        }
        values := values + [value.value];
      }
      row := V.Row(values, reader.position, true);
    }

    method ReadSectionBytes(length: nat, limit: nat) returns (r: Result<seq<byte>, SvndiffError>)
      requires Ready()
      modifies reader
      ensures Ready()
      ensures SectionRead(r, reader.position) == ReadSection(codec, version, reader.data, old(reader.position), length, limit)
    {
      var encoded := reader.ReadFull(length);
      if encoded == None {
        return Err(UnexpectedEnd);
      }
      if version == 0 {
        return Ok(encoded.value);
      }
      var original := V.ConsumeVarint(encoded.value, 0);
      r := Unpack(codec, version, encoded.value, original, limit);
    }

    method NextWindow() returns (outcome: Outcome)
      requires Ready()
      modifies this, reader
      ensures Ready()
      ensures Reply(outcome, Now()) == WindowAt(codec, version, reader.data, old(Now()))
    {
      if reader.position == |reader.data| {
        return End;
      }
      var row := ReadHeader();
      if !row.complete {
        return Failed(UnexpectedEnd);
      }
      var header := row.values;
      if !WithinLimits(header) {
        return Failed(CorruptWindow);
      }
      var sourceOffset := header[0];
      if started && sourceOffset < lastSourceOffset {
        return Failed(BackwardView);
      }
      started := true;
      lastSourceOffset := sourceOffset;
      outcome := ReadRest(header);
    }

    /** The sections, and the window they make up. */
    method ReadRest(header: seq<uint64>) returns (outcome: Outcome)
      requires Ready() && |header| == 5 && WithinLimits(header)
      modifies reader
      ensures Ready()
      ensures Body(outcome, reader.position) == ReadBody(codec, version, reader.data, old(reader.position), header)
    {
      var instructions := ReadSectionBytes(header[3], MAX_INSTRUCTION_SECTION_SIZE);
      if instructions.Err? {
        return Failed(instructions.error);
      }
      var newData := ReadSectionBytes(header[4], MAX_WINDOW_SIZE);
      if newData.Err? {
        return Failed(newData.error);
      }
      var operations := I.DecodeInstructions(instructions.value, header[1], header[2], |newData.value|);
      if operations == None {
        return Failed(BadInstructions);
      }
      var window := Window(header[0], header[1], header[2], operations.value, newData.value);
      var invalid := Validate(window);
      assert invalid.None? by {
        I.DecodedIsInOrder(instructions.value, header[1], header[2], |newData.value|);
      }
      return Decoded(window);
    }
  }

  /** NewDecoder: reads the stream header, and returns no decoder for any other one. */
  method NewDecoder(codec: Codec, reader: V.ByteReader) returns (decoder: Decoder?)
    requires reader.Valid() && reader.position == 0
    modifies reader
    ensures decoder != null <==> |reader.data| >= 4 && reader.data[3] <= 2 && reader.data[..4] == Magic(reader.data[3])
    ensures decoder != null ==>
              && fresh(decoder) && decoder.reader == reader && decoder.Ready()
              && decoder.codec == codec && decoder.version == reader.data[3]
              && decoder.Now() == State(4, 0, false)
  {
    var header := reader.ReadFull(4);
    if header == None {
      return null;
    }
    if header.value[..3] != [0x53, 0x56, 0x4e] || header.value[3] > 2 {
      return null;
    }
    decoder := new Decoder(codec, header.value[3], reader);
  }
}
