/** The whole way of a text delta: streamed, encoded, decoded and applied. */
module EndToEnd {
  import opened Bytes
  import opened Common
  import opened DeltaApply
  import opened DeltaStream
  import opened Differ
  import opened Svndiff
  import opened SvndiffRoundTrip
  import opened Window
  import I = Instructions
  import V = Varint

  // ----- encoding a whole delta -----

  ghost predicate Writable(w: Window) {
    Valid(w) && GoSized(w)
  }

  ghost predicate AllWritable(windows: seq<Window>) {
    forall i :: 0 <= i < |windows| ==> Writable(windows[i])
  }

  ghost function WindowBytes(codec: Codec, version: Version, windows: seq<Window>): (r: seq<seq<byte>>)
    requires AllWritable(windows)
    ensures |r| == |windows|
  {
    seq(|windows|, i requires 0 <= i < |windows| => EncodeWindow(codec, version, windows[i]))
  }

  /** The stream header and every window. */
  ghost function EncodeDelta(codec: Codec, version: Version, windows: seq<Window>): seq<byte>
    requires AllWritable(windows)
  {
    Magic(version) + Joined(WindowBytes(codec, version, windows), |windows|)
  }

  lemma {:induction false} OpsBelowTarget(ops: seq<Op>, n: nat, sourceLength: int, newLength: int)
    requires OpsFit(ops, n, sourceLength, newLength)
    ensures n <= Start(ops, n)
  {
    StartMonotone(ops, 0, n, sourceLength, newLength);
  }

  lemma {:induction false} DeltaWindowWritable(source: seq<byte>, target: seq<byte>, windows: seq<Window>, i: nat)
    requires DeltaPrefix(source, target, windows) && i < |windows|
    ensures Writable(windows[i])
  {
    assert DeltaAt(source, target, windows, i);
    var w := windows[i];
    OpsBelowTarget(w.ops, |w.ops|, w.sourceLength, |w.newData|);
    NewBeforeBounds(w.ops, |w.ops|, w.sourceLength, |w.newData|);
  }

  lemma {:induction false} DeltaWritable(source: seq<byte>, target: seq<byte>, windows: seq<Window>)
    requires DeltaPrefix(source, target, windows)
    ensures AllWritable(windows)
  {
    forall i | 0 <= i < |windows| ensures Writable(windows[i]) {
      DeltaWindowWritable(source, target, windows, i);
    }
  }

  lemma {:induction false} EncodeDeltaSnoc(codec: Codec, version: Version, windows: seq<Window>, w: Window)
    requires AllWritable(windows) && Writable(w)
    ensures AllWritable(windows + [w])
    ensures EncodeDelta(codec, version, windows + [w]) == EncodeDelta(codec, version, windows) + EncodeWindow(codec, version, w)
  {
    AllWritableSnoc(windows, w);
    var parts, bytes := WindowBytes(codec, version, windows), EncodeWindow(codec, version, w);
    assert WindowBytes(codec, version, windows + [w]) == parts + [bytes];
    JoinedBehind(Magic(version), parts, bytes);
  }

  lemma {:induction false} JoinedBehind(magic: seq<byte>, parts: seq<seq<byte>>, bytes: seq<byte>)
    ensures magic + Joined(parts + [bytes], |parts| + 1) == magic + Joined(parts, |parts|) + bytes
  {
    JoinedSnoc(parts, bytes);
    assert magic + (Joined(parts, |parts|) + bytes) == magic + Joined(parts, |parts|) + bytes;
  }

  lemma {:induction false} AllWritableSnoc(windows: seq<Window>, w: Window)
    requires AllWritable(windows) && Writable(w)
    ensures AllWritable(windows + [w])
  {
    forall i | 0 <= i < |windows + [w]| ensures Writable((windows + [w])[i]) {
      assert i < |windows| ==> Writable(windows[i]);
    }
  }

  /** SendStream into an svndiff encoder. */
  method SendStream(source: V.ByteReader, target: V.ByteReader, encoder: Encoder, md5: Digest)
    returns (error: Option<WriteError>, checksum: seq<byte>, ghost windows: seq<Window>)
    requires source != target && source.position == 0 && target.position == 0 && |source.data| <= MAX_INT64
    requires !encoder.closed && encoder.output == Magic(encoder.version)
    modifies source, target, encoder
    ensures error == None && encoder.closed
    ensures Delta(source.data, target.data, windows) && AllWritable(windows)
    ensures encoder.output == EncodeDelta(encoder.codec, encoder.version, windows)
    ensures checksum == md5[target.data]
  {
    var stream := new TxDeltaStream(source, target);
    while true
      invariant stream.Valid() && fresh(stream) && stream.source == source && stream.target == target
      invariant !encoder.closed && AllWritable(stream.windows)
      invariant encoder.output == EncodeDelta(encoder.codec, encoder.version, stream.windows)
      invariant forall i :: 0 <= i < |stream.windows| ==> ChunkStart(target.data, i) < |target.data|
      invariant stream.done ==> target.position == |target.data|
      decreases |target.data| - target.position, if stream.done then 0 else 1
    {
      ghost var before := stream.windows;
      var window := stream.NextWindow();
      if window == None {
        break;
      }
      DeltaWindowWritable(source.data, target.data, stream.windows, |before|);
      EncodeDeltaSnoc(encoder.codec, encoder.version, before, window.value);
      error := encoder.WriteWindow(window.value);
    }
    encoder.Close();
    windows := stream.windows;
    assert target.data[..|target.data|] == target.data;
    return None, md5[stream.digested], windows;
  }

  // ----- what the receiver makes of it -----

  /** The one condition that a window of a delta can fail: its new-data section, as stored,
      is no longer than the decoder's limit for it. */
  ghost predicate Fits(codec: Codec, version: Version, w: Window) {
    |w.newData| <= MAX_INT64 && |EncodeSection(codec, version, w.newData)| <= 102400
  }

  /** Version 0 stores new data as it is, so every window of a delta fits. */
  lemma {:induction false} VersionZeroFits(codec: Codec, source: seq<byte>, target: seq<byte>, windows: seq<Window>, i: nat)
    requires DeltaPrefix(source, target, windows) && i < |windows|
    ensures Fits(codec, 0, windows[i])
  {
    assert DeltaAt(source, target, windows, i);
    var w := windows[i];
    NewBeforeBounds(w.ops, |w.ops|, w.sourceLength, |w.newData|);
  }

  /** Instructions never reach their limit: a greedy window takes no more instruction bytes
      than it produces target bytes. */
  lemma {:induction false} InstructionsFit(codec: Codec, version: Version, source: seq<byte>, target: seq<byte>, w: Window)
    requires Rebuilds(source, target, w) && Greedy(source, target, w.ops) && Writable(w)
    requires |target| <= MAX_WINDOW_SIZE
    ensures |EncodeSection(codec, version, Instructions(w))| <= 2150400
  {
    I.OpsFitEncodable(w.ops, w.sourceLength, |w.newData|);
    forall i | 0 <= i < |w.ops| ensures w.ops[i].kind == OP_NEW || w.ops[i].length >= 64 {
      if w.ops[i].kind != OP_NEW {
        CopiesAreLongAndMaximal(source, target, w, i);
      }
    }
    I.LongOpsLength(w.ops);
    V.EncodeLengthUint64(|Instructions(w)|);
  }

  /** The decoder in front of window i. */
  ghost function Before(codec: Codec, version: Version, source: Slice, windows: seq<Window>, i: nat): State
    requires AllWritable(windows) && i <= |windows|
  {
    State(|Magic(version)| + |Joined(WindowBytes(codec, version, windows), i)|,
          if i == 0 then 0 else ChunkStart(source, i - 1),
          i > 0)
  }

  lemma {:induction false} WindowStands(codec: Codec, version: Version, windows: seq<Window>, i: nat)
    requires AllWritable(windows) && i < |windows|
    ensures StandsAt(EncodeWindow(codec, version, windows[i]), EncodeDelta(codec, version, windows),
                     |Magic(version)| + |Joined(WindowBytes(codec, version, windows), i)|)
    ensures |Joined(WindowBytes(codec, version, windows), i + 1)|
            == |Joined(WindowBytes(codec, version, windows), i)| + |EncodeWindow(codec, version, windows[i])|
  {
    var parts := WindowBytes(codec, version, windows);
    assert parts[i] == EncodeWindow(codec, version, windows[i]);
    JoinedPart(parts, i, |windows|);
    StandsAtPrepend(parts[i], Magic(version), Joined(parts, |windows|), |Joined(parts, i)|);
  }

  lemma {:induction false} FitsIsReadable(codec: Codec, version: Version, source: Slice, target: seq<byte>, windows: seq<Window>, i: nat)
    requires DeltaPrefix(source, target, windows) && AllWritable(windows) && i < |windows|
    ensures Writable(windows[i]) && InOrder(windows[i].ops, |windows[i].newData|)
    ensures Readable(codec, version, windows[i], Before(codec, version, source, windows, i)) <==> Fits(codec, version, windows[i])
  {
    assert Writable(windows[i]);
    assert DeltaAt(source, target, windows, i);
    InstructionsFit(codec, version, Chunk(source, i), Chunk(target, i), windows[i]);
    var w, state := windows[i], Before(codec, version, source, windows, i);
    assert state.started ==> state.lastSourceOffset <= w.sourceOffset;
    assert w.sourceLength <= MAX_WINDOW_SIZE && w.targetLength <= MAX_WINDOW_SIZE;
  }

  /** What the decoder returns for window i. */
  lemma {:induction false} ReadOne(codec: Codec, version: Version, source: Slice, target: seq<byte>, windows: seq<Window>, i: nat)
    requires Inverse(codec) && DeltaPrefix(source, target, windows) && AllWritable(windows) && i < |windows|
    ensures var data := EncodeDelta(codec, version, windows);
            var here := Before(codec, version, source, windows, i);
            && here.position <= |data|
            && (Fits(codec, version, windows[i]) ==>
                  WindowAt(codec, version, data, here)
                  == Reply(Decoded(windows[i]), Before(codec, version, source, windows, i + 1)))
            && (!Fits(codec, version, windows[i]) ==> WindowAt(codec, version, data, here).outcome.Failed?)
  {
    WindowStands(codec, version, windows, i);
    FitsIsReadable(codec, version, source, target, windows, i);
    BeforeNext(codec, version, source, target, windows, i);
    var here := Before(codec, version, source, windows, i);
    WindowRoundTrip(codec, version, windows[i], EncodeDelta(codec, version, windows), here);
    Reads(windows[i], Fits(codec, version, windows[i]), here.position + |EncodeWindow(codec, version, windows[i])|,
          WindowAt(codec, version, EncodeDelta(codec, version, windows), here));
  }

  lemma {:induction false} Reads(w: Window, readable: bool, end: nat, reply: Reply)
    requires ReadsBack(w, readable, end, reply) && InOrder(w.ops, |w.newData|)
    ensures readable ==> reply == Reply(Decoded(w), State(end, w.sourceOffset, true))
    ensures !readable ==> reply.outcome.Failed?
  {
  }

  lemma {:induction false} BeforeNext(codec: Codec, version: Version, source: Slice, target: seq<byte>, windows: seq<Window>, i: nat)
    requires DeltaPrefix(source, target, windows) && AllWritable(windows) && i < |windows|
    ensures Writable(windows[i])
    ensures Before(codec, version, source, windows, i + 1)
            == State(Before(codec, version, source, windows, i).position + |EncodeWindow(codec, version, windows[i])|,
                     windows[i].sourceOffset, true)
  {
    assert DeltaAt(source, target, windows, i) && Writable(windows[i]);
    WindowStands(codec, version, windows, i);
  }

  // ----- applying it -----

  lemma {:induction false} ApplyDecoded(codec: Codec, version: Version, source: seq<byte>, data: seq<byte>, state: State, output: seq<byte>,
                                        w: Window, next: State)
    requires state.position <= |data| && WindowAt(codec, version, data, state) == Reply(Decoded(w), next)
    requires Valid(w) && w.sourceOffset + w.sourceLength <= |source|
    ensures next.position <= |data|
    ensures ApplyFrom(codec, version, source, data, state, output)
            == ApplyFrom(codec, version, source, data, next,
                         output + Expand(source[w.sourceOffset..w.sourceOffset + w.sourceLength], w.newData, w.ops, |w.ops|))
  {
  }

  lemma {:induction false} ApplyFailed(codec: Codec, version: Version, source: seq<byte>, data: seq<byte>, state: State, output: seq<byte>)
    requires state.position <= |data| && WindowAt(codec, version, data, state).outcome.Failed?
    ensures ApplyFrom(codec, version, source, data, state, output).error.Some?
  {
  }

  lemma {:induction false} ChunkStep(source: Slice, target: seq<byte>, windows: seq<Window>, i: nat)
    requires DeltaPrefix(source, target, windows) && i < |windows|
    ensures var w := windows[i];
            && Valid(w) && w.sourceOffset + w.sourceLength <= |source|
            && target[..ChunkStart(target, i)]
               + Expand(source[w.sourceOffset..w.sourceOffset + w.sourceLength], w.newData, w.ops, |w.ops|)
               == target[..ChunkStart(target, i + 1)]
  {
    assert DeltaAt(source, target, windows, i);
    var w := windows[i];
    assert Chunk(source, i) == source[w.sourceOffset..w.sourceOffset + w.sourceLength];
    assert target[..ChunkStart(target, i)] + Chunk(target, i) == target[..ChunkStart(target, i + 1)];
  }

  lemma {:induction false} ApplyEnd(codec: Codec, version: Version, source: seq<byte>, data: seq<byte>, state: State, output: seq<byte>)
    requires state.position == |data|
    ensures ApplyFrom(codec, version, source, data, state, output) == Applied(output, None)
  {
  }

  /** In state i the decoder returns window i and goes to state i + 1, or fails. */
  ghost predicate Receives(codec: Codec, version: Version, data: seq<byte>, states: seq<State>, windows: seq<Window>, fits: seq<bool>, i: nat)
    requires |states| == |windows| + 1 && |fits| == |windows| && i < |windows|
  {
    && states[i].position <= |data|
    && (fits[i] ==> WindowAt(codec, version, data, states[i]) == Reply(Decoded(windows[i]), states[i + 1]))
    && (!fits[i] ==> WindowAt(codec, version, data, states[i]).outcome.Failed?)
  }

  lemma {:induction false} ApplyLink(codec: Codec, version: Version, source: Slice, target: seq<byte>, windows: seq<Window>,
                                     data: seq<byte>, states: seq<State>, fits: seq<bool>, i: nat)
    requires DeltaPrefix(source, target, windows) && i < |windows|
    requires |states| == |windows| + 1 && |fits| == |windows|
    requires Receives(codec, version, data, states, windows, fits, i) && states[i + 1].position <= |data|
    ensures var applied := ApplyFrom(codec, version, source, data, states[i], target[..ChunkStart(target, i)]);
            if fits[i]
            then applied == ApplyFrom(codec, version, source, data, states[i + 1], target[..ChunkStart(target, i + 1)])
            else applied.error.Some?
  {
    var output := target[..ChunkStart(target, i)];
    if fits[i] {
      ChunkStep(source, target, windows, i);
      ApplyDecoded(codec, version, source, data, states[i], output, windows[i], states[i + 1]);
    } else {
      ApplyFailed(codec, version, source, data, states[i], output);
    }
  }

  ghost predicate LinkAt(results: seq<Applied>, fits: seq<bool>, i: nat)
    requires |results| == |fits| + 1 && i < |fits|
  {
    if fits[i] then results[i] == results[i + 1] else results[i].error.Some?
  }

  ghost predicate AllFrom(fits: seq<bool>, i: nat) {
    forall j :: i <= j < |fits| ==> fits[j]
  }

  /** Results that each link passes on unchanged, or turns into an error. */
  lemma {:induction false} ChainEnds(results: seq<Applied>, fits: seq<bool>, target: seq<byte>, i: nat)
    requires |results| == |fits| + 1 && i <= |fits| && results[|fits|] == Applied(target, None)
    requires forall j :: 0 <= j < |fits| ==> LinkAt(results, fits, j)
    ensures if AllFrom(fits, i) then results[i] == Applied(target, None) else results[i].error.Some?
    decreases |fits| - i
  {
    if i < |fits| {
      ChainEnds(results, fits, target, i + 1);
      assert LinkAt(results, fits, i);
      assert AllFrom(fits, i) <==> fits[i] && AllFrom(fits, i + 1);
    }
  }

  /** What the receiver ends with when it starts in front of each window. */
  ghost function Results(codec: Codec, version: Version, source: Slice, target: seq<byte>, data: seq<byte>, states: seq<State>): (r: seq<Applied>)
    requires forall j :: 0 <= j < |states| ==> states[j].position <= |data|
    ensures |r| == |states|
  {
    seq(|states|, i requires 0 <= i < |states| =>
      ApplyFrom(codec, version, source, data, states[i], target[..ChunkStart(target, i)]))
  }

  lemma {:induction false} LastResult(codec: Codec, version: Version, source: Slice, target: seq<byte>, windows: seq<Window>,
                                      data: seq<byte>, states: seq<State>, results: seq<Applied>)
    requires Delta(source, target, windows) && |states| == |windows| + 1 && states[|windows|].position == |data|
    requires forall j :: 0 <= j < |states| ==> states[j].position <= |data|
    requires results == Results(codec, version, source, target, data, states)
    ensures results[|windows|] == Applied(target, None)
  {
    var n := |windows|;
    assert target[..ChunkStart(target, n)] == target;
    ApplyEnd(codec, version, source, data, states[n], target);
  }

  lemma {:induction false} ResultLink(codec: Codec, version: Version, source: Slice, target: seq<byte>, windows: seq<Window>,
                                      data: seq<byte>, states: seq<State>, fits: seq<bool>, results: seq<Applied>, i: nat)
    requires DeltaPrefix(source, target, windows) && i < |windows|
    requires |states| == |windows| + 1 && |fits| == |windows|
    requires forall j :: 0 <= j < |states| ==> states[j].position <= |data|
    requires Receives(codec, version, data, states, windows, fits, i)
    requires results == Results(codec, version, source, target, data, states)
    ensures LinkAt(results, fits, i)
  {
    ApplyLink(codec, version, source, target, windows, data, states, fits, i);
  }

  /** The receiver behind i windows has written the first i chunks of the target. If all the
      windows fit, it ends with the whole target; if not, at the first that does not. */
  lemma {:induction false} ApplyAll(codec: Codec, version: Version, source: Slice, target: seq<byte>, windows: seq<Window>,
                                    data: seq<byte>, states: seq<State>, fits: seq<bool>)
    requires Delta(source, target, windows)
    requires |states| == |windows| + 1 && |fits| == |windows|
    requires states[|windows|].position == |data| && forall j :: 0 <= j < |states| ==> states[j].position <= |data|
    requires forall j :: 0 <= j < |windows| ==> Receives(codec, version, data, states, windows, fits, j)
    ensures var applied := ApplyFrom(codec, version, source, data, states[0], []);
            if AllFrom(fits, 0) then applied == Applied(target, None) else applied.error.Some?
  {
    var n := |windows|;
    var results := Results(codec, version, source, target, data, states);
    LastResult(codec, version, source, target, windows, data, states, results);
    forall j | 0 <= j < n ensures LinkAt(results, fits, j) {
      ResultLink(codec, version, source, target, windows, data, states, fits, results, j);
    }
    ChainEnds(results, fits, target, 0);
    assert target[..ChunkStart(target, 0)] == [];
  }

  /** The decoder's states on the encoding of a delta. */
  ghost function States(codec: Codec, version: Version, source: Slice, windows: seq<Window>): (r: seq<State>)
    requires AllWritable(windows)
    ensures |r| == |windows| + 1
  {
    seq(|windows| + 1, i requires 0 <= i <= |windows| => Before(codec, version, source, windows, i))
  }

  lemma {:induction false} BeforeWithin(codec: Codec, version: Version, source: Slice, windows: seq<Window>, i: nat)
    requires AllWritable(windows) && i <= |windows|
    ensures Before(codec, version, source, windows, i).position <= |EncodeDelta(codec, version, windows)|
    ensures i == |windows| ==> Before(codec, version, source, windows, i).position == |EncodeDelta(codec, version, windows)|
  {
    if i < |windows| {
      WindowStands(codec, version, windows, i);
    }
  }

  lemma {:induction false} StatesWithin(codec: Codec, version: Version, source: Slice, windows: seq<Window>)
    requires AllWritable(windows)
    ensures forall i :: 0 <= i < |States(codec, version, source, windows)| ==>
              States(codec, version, source, windows)[i].position <= |EncodeDelta(codec, version, windows)|
    ensures States(codec, version, source, windows)[|windows|].position == |EncodeDelta(codec, version, windows)|
    ensures States(codec, version, source, windows)[0] == START
  {
    BeforeWithin(codec, version, source, windows, |windows|);
    forall i | 0 <= i <= |windows|
      ensures States(codec, version, source, windows)[i].position <= |EncodeDelta(codec, version, windows)|
    {
      BeforeWithin(codec, version, source, windows, i);
    }
  }

  ghost function WhichFit(codec: Codec, version: Version, windows: seq<Window>): (r: seq<bool>)
    ensures |r| == |windows|
  {
    seq(|windows|, i requires 0 <= i < |windows| => Fits(codec, version, windows[i]))
  }

  lemma {:induction false} AllReceived(codec: Codec, version: Version, source: Slice, target: seq<byte>, windows: seq<Window>)
    requires Inverse(codec) && DeltaPrefix(source, target, windows) && AllWritable(windows)
    ensures forall i :: 0 <= i < |windows| ==>
              Receives(codec, version, EncodeDelta(codec, version, windows), States(codec, version, source, windows), windows,
                       WhichFit(codec, version, windows), i)
  {
    var states, fits := States(codec, version, source, windows), WhichFit(codec, version, windows);
    forall i | 0 <= i < |windows|
      ensures Receives(codec, version, EncodeDelta(codec, version, windows), states, windows, fits, i)
    {
      ReceivedAt(codec, version, source, target, windows, states, fits, i);
    }
  }

  lemma {:induction false} ReceivedAt(codec: Codec, version: Version, source: Slice, target: seq<byte>, windows: seq<Window>,
                                      states: seq<State>, fits: seq<bool>, i: nat)
    requires Inverse(codec) && DeltaPrefix(source, target, windows) && AllWritable(windows) && i < |windows|
    requires states == States(codec, version, source, windows) && fits == WhichFit(codec, version, windows)
    ensures Receives(codec, version, EncodeDelta(codec, version, windows), states, windows, fits, i)
  {
    ReadOne(codec, version, source, target, windows, i);
  }

  /** The decoder behind the stream header. */
  const START := State(4, 0, false)

  /** End to end: the receiver reconstructs exactly the target if and only if the new data of
      every window, as stored, fits the decoder's section limit. */
  lemma {:induction false} DeltaRoundTrip(codec: Codec, version: Version, source: Slice, target: seq<byte>, windows: seq<Window>)
    requires Inverse(codec) && Delta(source, target, windows)
    ensures AllWritable(windows) && START.position <= |EncodeDelta(codec, version, windows)|
    ensures ApplyFrom(codec, version, source, EncodeDelta(codec, version, windows), START, []) == Applied(target, None)
            <==> AllFrom(WhichFit(codec, version, windows), 0)
  {
    DeltaWritable(source, target, windows);
    AllReceived(codec, version, source, target, windows);
    StatesWithin(codec, version, source, windows);
    ApplyAll(codec, version, source, target, windows, EncodeDelta(codec, version, windows),
             States(codec, version, source, windows), WhichFit(codec, version, windows));
  }

  /** In version 0 it holds for all sources and targets. */
  lemma {:induction false} DeltaRoundTripVersionZero(codec: Codec, source: Slice, target: seq<byte>, windows: seq<Window>)
    requires Inverse(codec) && Delta(source, target, windows)
    ensures AllWritable(windows) && START.position <= |EncodeDelta(codec, 0, windows)|
    ensures ApplyFrom(codec, 0, source, EncodeDelta(codec, 0, windows), START, []) == Applied(target, None)
  {
    forall i | 0 <= i < |windows| ensures Fits(codec, 0, windows[i]) {
      VersionZeroFits(codec, source, target, windows, i);
    }
    assert AllFrom(WhichFit(codec, 0, windows), 0);
    DeltaRoundTrip(codec, 0, source, target, windows);
  }

  /** Sender and receiver together: in version 0 the receiver always ends with the target and
      with the checksum that the sender computed; in versions 1 and 2, if all windows fit. */
  method Transfer(codec: Codec, version: Version, source: Slice, target: seq<byte>, md5: Digest)
    returns (r: Applied, ghost windows: seq<Window>)
    requires Inverse(codec)
    ensures Delta(source, target, windows)
    ensures version == 0 || AllFrom(WhichFit(codec, version, windows), 0) ==> r == Applied(target, None)
  {
    var sourceReader := new V.ByteReader(source);
    var targetReader := new V.ByteReader(target);
    var encoder := new Encoder(codec, version);
    var error, checksum;
    error, checksum, windows := SendStream(sourceReader, targetReader, encoder, md5);
    var input := new V.ByteReader(encoder.output);
    var decoder := NewDecoder(codec, input);
    var actual;
    r, actual := Apply(source, decoder, md5, Some(checksum));
    DeltaRoundTrip(codec, version, source, target, windows);
    if version == 0 {
      DeltaRoundTripVersionZero(codec, source, target, windows);
    }
  }

  // ----- where versions 1 and 2 fall short -----

  lemma {:induction false} OnlyNewData(target: seq<byte>, w: Window, n: nat)
    requires Rebuilds([], target, w) && Greedy([], target, w.ops) && n <= |w.ops|
    ensures 0 <= NewBefore(w.ops, n) <= |w.newData|
    ensures OpsFit(w.ops, n, 0, |w.newData|) && Expand([], w.newData, w.ops, n) == w.newData[..NewBefore(w.ops, n)]
  {
    if n > 0 {
      OnlyNewData(target, w, n - 1);
      assert OpFitsAt(w.ops, n - 1, 0, |w.newData|) && SequentialAt(w.ops, n - 1);
      if w.ops[n - 1].kind != OP_NEW {
        CopiesAreLongAndMaximal([], target, w, n - 1);
      }
    }
  }

  /** A target of one chunk, with nothing to copy from, travels as new data alone. */
  lemma {:induction false} OneLiteralWindow(target: seq<byte>, windows: seq<Window>)
    requires 0 < |target| <= MAX_WINDOW_SIZE && Delta([], target, windows)
    ensures |windows| == 1 && windows[0].newData == target
  {
    assert ChunkStart(target, 0) == 0 && ChunkStart(target, 1) == |target|;
    assert DeltaAt([], target, windows, 0);
    assert Chunk(target, 0) == target && Chunk([], 0) == [];
    var w := windows[0];
    OnlyNewData(target, w, |w.ops|);
    assert w.newData[..|w.newData|] == w.newData;
  }

  /** In versions 1 and 2 such a target arrives exactly when it leaves room for the length in
      front of it, or can be compressed. Between 102398 and 102400 incompressible bytes, which
      the encoder accepts as one window, the decoder refuses. */
  lemma {:induction false} IncompressibleChunk(codec: Codec, version: Version, target: seq<byte>, windows: seq<Window>)
    requires Inverse(codec) && version != 0
    requires 0 < |target| <= 102400 && Delta([], target, windows)
    requires Payload(codec, version, target) == target
    ensures AllWritable(windows) && START.position <= |EncodeDelta(codec, version, windows)|
    ensures ApplyFrom(codec, version, [], EncodeDelta(codec, version, windows), START, []) == Applied(target, None)
            <==> |target| <= 102397
  {
    OneLiteralWindow(target, windows);
    StoredSectionLength(codec, version, target);
    DeltaRoundTrip(codec, version, [], target, windows);
    var fits := WhichFit(codec, version, windows);
    assert fits[0] <==> |target| <= 102397;
    assert AllFrom(fits, 0) <==> fits[0];
  }

  /** A concrete failure: a window of zeros, under compressors that shorten nothing. */
  lemma {:induction false} FullWindowOfZerosFails(windows: seq<Window>)
    requires Delta([], seq(102400, _ => 0), windows)
    ensures Inverse(Identity()) && AllWritable(windows) && START.position <= |EncodeDelta(Identity(), 2, windows)|
    ensures ApplyFrom(Identity(), 2, [], EncodeDelta(Identity(), 2, windows), START, [])
            != Applied(seq(102400, _ => 0), None)
  {
    var zeros: seq<byte> := seq(102400, _ => 0);
    IncompressibleChunk(Identity(), 2, zeros, windows);
  }
}
