/** Exactly which windows a decoder reads back from what an encoder wrote. */
module SvndiffRoundTrip {
  import opened Bytes
  import opened Common
  import opened Svndiff
  import opened Window
  import I = Instructions
  import V = Varint

  /** The limits that the decoder puts on a window, and its rule that source views never move
      backwards. The length limits are on the sections as they are stored. */
  ghost predicate Readable(codec: Codec, version: Version, w: Window, state: State)
    requires Valid(w) && GoSized(w)
  {
    ReadableAs(w, state, |EncodeSection(codec, version, Instructions(w))|, |EncodeSection(codec, version, w.newData)|)
  }

  ghost predicate ReadableAs(w: Window, state: State, instructionLength: nat, newDataLength: nat) {
    && InOrder(w.ops, |w.newData|)
    && w.sourceLength <= 102400 && w.targetLength <= 102400
    && instructionLength <= 2150400
    && newDataLength <= 102400
    && (state.started ==> state.lastSourceOffset <= w.sourceOffset)
  }

  /** The contents of both sections are within limits where the window is in order and small. */
  lemma {:induction false} ContentsWithinLimits(w: Window)
    requires Valid(w) && GoSized(w) && InOrder(w.ops, |w.newData|) && w.targetLength <= MAX_WINDOW_SIZE
    ensures |Instructions(w)| <= MAX_INSTRUCTION_SECTION_SIZE && |w.newData| <= MAX_WINDOW_SIZE
  {
    I.OpsFitEncodable(w.ops, w.sourceLength, |w.newData|);
    I.EncodeOpsLength(w.ops);
    NewBeforeBounds(w.ops, |w.ops|, w.sourceLength, |w.newData|);
  }

  lemma {:induction false} AssembleOfEncoded(w: Window, header: seq<uint64>)
    requires Valid(w) && GoSized(w) && |header| == 5 && WithinLimits(header)
    requires header[0] == w.sourceOffset && header[1] == w.sourceLength && header[2] == w.targetLength
    ensures Assemble(header, Instructions(w), w.newData) == Decoded(w) <==> InOrder(w.ops, |w.newData|)
  {
    I.InstructionsRoundTrip(w);
  }

  /** What reading a section does, in terms of the section's bytes alone. */
  lemma {:induction false} ReadSectionBytes(codec: Codec, version: Version, data: seq<byte>, position: nat, encoded: seq<byte>, limit: nat)
    requires StandsAt(encoded, data, position)
    ensures ReadSection(codec, version, data, position, |encoded|, limit)
            == SectionRead(DecodeSection(codec, version, encoded, limit), position + |encoded|)
  {
  }

  /** The two sections of w, as some bytes that decode to them. */
  ghost predicate Sections(codec: Codec, version: Version, w: Window, instructions: seq<byte>, newData: seq<byte>)
    requires Valid(w) && GoSized(w)
  {
    && |instructions| < TWO_TO_THE_64 && |newData| < TWO_TO_THE_64
    && DecodeSection(codec, version, instructions, MAX_INSTRUCTION_SECTION_SIZE)
       == (if version == 0 || |Instructions(w)| <= MAX_INSTRUCTION_SECTION_SIZE then Ok(Instructions(w))
           else Err(InvalidCompressedData))
    && DecodeSection(codec, version, newData, MAX_WINDOW_SIZE)
       == (if version == 0 || |w.newData| <= MAX_WINDOW_SIZE then Ok(w.newData) else Err(InvalidCompressedData))
  }

  lemma {:induction false} SectionsOf(codec: Codec, version: Version, w: Window)
    requires Inverse(codec) && Valid(w) && GoSized(w)
    ensures Sections(codec, version, w,
                     EncodeSection(codec, version, Instructions(w)), EncodeSection(codec, version, w.newData))
  {
    SectionRoundTrip(codec, version, Instructions(w), MAX_INSTRUCTION_SECTION_SIZE);
    SectionRoundTrip(codec, version, w.newData, MAX_WINDOW_SIZE);
    SectionIsSized(codec, version, Instructions(w));
    SectionIsSized(codec, version, w.newData);
  }

  /** What reading both sections does, in terms of their bytes alone. */
  lemma {:induction false} ReadBodySections(codec: Codec, version: Version, data: seq<byte>, position: nat, header: seq<uint64>,
                                            instructions: seq<byte>, newData: seq<byte>)
    requires |header| == 5 && WithinLimits(header)
    requires header[3] == |instructions| && header[4] == |newData|
    requires StandsAt(instructions, data, position) && StandsAt(newData, data, position + |instructions|)
    ensures var (a, b) := (DecodeSection(codec, version, instructions, MAX_INSTRUCTION_SECTION_SIZE),
                           DecodeSection(codec, version, newData, MAX_WINDOW_SIZE));
            var body := ReadBody(codec, version, data, position, header);
            if a.Ok? && b.Ok?
            then body == Body(Assemble(header, a.value, b.value), position + |instructions| + |newData|)
            else body.outcome.Failed?
  {
    ReadSectionBytes(codec, version, data, position, instructions, MAX_INSTRUCTION_SECTION_SIZE);
    ReadSectionBytes(codec, version, data, position + |instructions|, newData, MAX_WINDOW_SIZE);
  }

  lemma {:induction false} ReadBodyOfEncoded(codec: Codec, version: Version, data: seq<byte>, position: nat, w: Window,
                                             instructions: seq<byte>, newData: seq<byte>)
    requires Valid(w) && GoSized(w) && Sections(codec, version, w, instructions, newData)
    requires WithinLimits(Header(w, |instructions|, |newData|))
    requires StandsAt(instructions + newData, data, position)
    ensures var body := ReadBody(codec, version, data, position, Header(w, |instructions|, |newData|));
            && (InOrder(w.ops, |w.newData|) ==> body == Body(Decoded(w), position + |instructions| + |newData|))
            && (body.outcome == Decoded(w) ==> InOrder(w.ops, |w.newData|))
  {
    var header := Header(w, |instructions|, |newData|);
    StandsAtParts(instructions, newData, data, position);
    ReadBodySections(codec, version, data, position, header, instructions, newData);
    AssembleOfEncoded(w, header);
    if InOrder(w.ops, |w.newData|) {
      ContentsWithinLimits(w);
    }
  }

  lemma {:induction false} StageBehindHeader(w: Window, data: seq<byte>, state: State, next: nat, instructionLength: uint64, newDataLength: uint64)
    requires Valid(w) && state.position < next <= |data|
    requires V.ReadAll(data, state.position, 5, []) == V.Row(Header(w, instructionLength, newDataLength), next, true)
    ensures var header := Header(w, instructionLength, newDataLength);
            if WithinLimits(header) && (state.started ==> state.lastSourceOffset <= w.sourceOffset)
            then HeaderAt(data, state) == Continue(header, next)
            else HeaderAt(data, state).Stop? && HeaderAt(data, state).outcome.Failed?
  {
  }

  lemma {:induction false} WindowAtStage(codec: Codec, version: Version, data: seq<byte>, state: State, header: seq<uint64>, next: nat)
    requires state.position <= |data| && HeaderAt(data, state) == Continue(header, next)
    ensures var body := ReadBody(codec, version, data, next, header);
            WindowAt(codec, version, data, state) == Reply(body.outcome, State(body.next, header[0], true))
  {
  }

  /** A readable window comes back as it was written, and the decoder stands behind it and
      remembers its source offset. An unreadable one never comes back; it fails, unless the
      trouble is the order of its new data, which may also make a different window of it. */
  ghost predicate ReadsBack(w: Window, readable: bool, end: nat, result: Reply) {
    && (readable ==> result == Reply(Decoded(w), State(end, w.sourceOffset, true)))
    && (!readable ==> result.outcome != Decoded(w))
    && (!readable && InOrder(w.ops, |w.newData|) ==> result.outcome.Failed?)
  }

  /** The whole window, where the header has been read up to `next`. */
  lemma {:induction false} WindowBehindHeader(codec: Codec, version: Version, w: Window, data: seq<byte>, state: State, next: nat,
                           instructions: seq<byte>, newData: seq<byte>)
    requires Valid(w) && GoSized(w) && Sections(codec, version, w, instructions, newData)
    requires state.position < next <= |data|
    requires V.ReadAll(data, state.position, 5, []) == V.Row(Header(w, |instructions|, |newData|), next, true)
    requires StandsAt(instructions + newData, data, next)
    ensures ReadsBack(w, ReadableAs(w, state, |instructions|, |newData|), next + |instructions| + |newData|,
                      WindowAt(codec, version, data, state))
  {
    var header := Header(w, |instructions|, |newData|);
    StageBehindHeader(w, data, state, next, |instructions|, |newData|);
    if HeaderAt(data, state) == Continue(header, next) {
      ReadBodyOfEncoded(codec, version, data, next, w, instructions, newData);
      WindowAtStage(codec, version, data, state, header, next);
      Conclude(w, state, |instructions|, |newData|, next + |instructions| + |newData|,
               ReadBody(codec, version, data, next, header), WindowAt(codec, version, data, state));
    }
  }

  lemma {:induction false} Conclude(w: Window, state: State, instructionLength: uint64, newDataLength: uint64, end: nat,
                 body: Body, window: Reply)
    requires Valid(w) && WithinLimits(Header(w, instructionLength, newDataLength))
    requires state.started ==> state.lastSourceOffset <= w.sourceOffset
    requires InOrder(w.ops, |w.newData|) ==> body == Body(Decoded(w), end)
    requires body.outcome == Decoded(w) ==> InOrder(w.ops, |w.newData|)
    requires window == Reply(body.outcome, State(body.next, w.sourceOffset, true))
    ensures ReadsBack(w, ReadableAs(w, state, instructionLength, newDataLength), end, window)
  {
  }

  lemma {:induction false} HeaderRead(w: Window, data: seq<byte>, position: nat, instructionLength: uint64, newDataLength: uint64)
    requires Valid(w)
    requires StandsAt(V.EncodeAll(Header(w, instructionLength, newDataLength)), data, position)
    ensures var header := Header(w, instructionLength, newDataLength);
            && |V.EncodeAll(header)| > 0
            && V.ReadAll(data, position, 5, []) == V.Row(header, position + |V.EncodeAll(header)|, true)
  {
    var header := Header(w, instructionLength, newDataLength);
    V.ReadAllOfEncoded(data, position, header, []);
    assert [] + header == header;
    V.EncodeLengthUint64(header[0]);
  }

  lemma {:induction false} WindowFromParts(codec: Codec, version: Version, w: Window, data: seq<byte>, state: State,
                                           header: seq<byte>, instructions: seq<byte>, newData: seq<byte>)
    requires Valid(w) && GoSized(w) && Sections(codec, version, w, instructions, newData)
    requires header == V.EncodeAll(Header(w, |instructions|, |newData|))
    requires StandsAt(header + (instructions + newData), data, state.position)
    ensures ReadsBack(w, ReadableAs(w, state, |instructions|, |newData|),
                      state.position + |header| + |instructions| + |newData|, WindowAt(codec, version, data, state))
  {
    StandsAtParts(header, instructions + newData, data, state.position);
    HeaderRead(w, data, state.position, |instructions|, |newData|);
    WindowBehindHeader(codec, version, w, data, state, state.position + |header|, instructions, newData);
  }

  lemma {:induction false} EncodeWindowParts(codec: Codec, version: Version, w: Window)
    returns (header: seq<byte>, instructions: seq<byte>, newData: seq<byte>)
    requires Inverse(codec) && Valid(w) && GoSized(w)
    ensures instructions == EncodeSection(codec, version, Instructions(w))
    ensures newData == EncodeSection(codec, version, w.newData)
    ensures Sections(codec, version, w, instructions, newData)
    ensures header == V.EncodeAll(Header(w, |instructions|, |newData|))
    ensures EncodeWindow(codec, version, w) == header + (instructions + newData)
    ensures |EncodeWindow(codec, version, w)| == |header| + |instructions| + |newData|
  {
    SectionsOf(codec, version, w);
    instructions := EncodeSection(codec, version, Instructions(w));
    newData := EncodeSection(codec, version, w.newData);
    header := V.EncodeAll(Header(w, |instructions|, |newData|));
  }

  /** The decoder returns exactly the window that was written when, and only when, the window
      is readable. */
  lemma {:induction false} WindowRoundTrip(codec: Codec, version: Version, w: Window, data: seq<byte>, state: State)
    requires Inverse(codec) && Valid(w) && GoSized(w)
    requires StandsAt(EncodeWindow(codec, version, w), data, state.position)
    ensures ReadsBack(w, Readable(codec, version, w, state), state.position + |EncodeWindow(codec, version, w)|,
                      WindowAt(codec, version, data, state))
  {
    var header, instructions, newData := EncodeWindowParts(codec, version, w);
    WindowFromParts(codec, version, w, data, state, header, instructions, newData);
  }
}
