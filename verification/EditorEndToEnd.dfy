/** A whole edit over the wire: sender, item encoding, decoding and receiver together. */
module EditorEndToEnd {
  import opened Common
  import opened Decimal
  import opened Bytes
  import opened Wire
  import opened WireRoundTrip
  import opened Checksums
  import opened EditorWire
  import opened EditorRun
  import opened EditorDriver
  import opened EditorSimulation
  import opened CommitEditor
  import Commands = EditorCommands
  import E = EndToEnd
  import Svndiff
  import Window
  import DeltaApply
  import DeltaStream

  // ----- which calls the encoder accepts -----

  predicate Short(text: Text) {
    |text| <= 67108864
  }

  predicate ShortSource(source: Option<CopySource>) {
    source.Some? ==> Short(source.value.path)
  }

  predicate ShortValue(value: Option<Text>) {
    value.Some? ==> Short(value.value)
  }

  predicate ShortChecksum(checksum: Option<Checksum>) {
    checksum.Some? ==> 2 * |checksum.value.digest| <= 67108864
  }

  /** No string in the call is longer than the wire format allows. */
  predicate Small<N>(call: Call<N>) {
    match call
    case DeleteEntry(_, path, _) => Short(path)
    case AddDirectory(_, path, source) => Short(path) && ShortSource(source)
    case OpenDirectory(_, path, _) => Short(path)
    case ChangeDirProp(_, name, value) => Short(name) && ShortValue(value)
    case AbsentDirectory(_, path) => Short(path)
    case AddFile(_, path, source) => Short(path) && ShortSource(source)
    case OpenFile(_, path, _) => Short(path)
    case AbsentFile(_, path) => Short(path)
    case ApplyTextDelta(_, checksum) => ShortChecksum(checksum)
    case DeltaChunk(_, data) => Short(data)
    case ChangeFileProp(_, name, value) => Short(name) && ShortValue(value)
    case CloseFile(_, checksum) => ShortChecksum(checksum)
    case _ => true
  }

  lemma {:induction false} TokenIsShort(prefix: byte, counter: uint64)
    ensures Short(TokenText(prefix, counter))
  {
    Uint64Digits(counter);
  }

  lemma {:induction false} ListOfNone()
    ensures Encodable(List([]), 2)
  {
  }

  lemma {:induction false} ListOfOne(item: Item)
    ensures Encodable(List([item]), 2) <==> Encodable(item, 3)
  {
    assert [item][0] == item;
  }

  lemma {:induction false} ListOfTwo(a: Item, b: Item, depth: nat)
    requires depth < MAX_NESTING_DEPTH
    ensures Encodable(List([a, b]), depth) <==> Encodable(a, depth + 1) && Encodable(b, depth + 1)
  {
    assert [a, b][0] == a && [a, b][1] == b;
  }

  ghost predicate ParamsFit(params: seq<Item>) {
    forall i :: 0 <= i < |params| ==> Encodable(params[i], 2)
  }

  lemma {:induction false} CommandFits(call: Call<Text>, token: Text)
    ensures Encodable(CommandItem(call, token), 0) <==> ParamsFit(Params(call, token))
  {
    Commands.SpellingIsValid(CommandName(call));
    var (word, params) := (Word(Commands.Spelling(CommandName(call))), List(Params(call, token)));
    assert Encodable(word, 1);
    ListOfTwo(word, params, 0);
  }

  lemma {:induction false} SourceFits(source: Option<CopySource>)
    ensures Encodable(CopySourceItem(source), 2) <==> ShortSource(source)
  {
    match source {
      case None => ListOfNone();
      case Some(c) => ListOfTwo(Str(c.path), Number(ToUint64(c.revision)), 2);
    }
  }

  lemma {:induction false} ValueFits(value: Option<Text>)
    ensures Encodable(OptionalBytes(value), 2) <==> ShortValue(value)
  {
    match value {
      case None => ListOfNone();
      case Some(v) => ListOfOne(Str(v));
    }
  }

  lemma {:induction false} RevisionFits(revision: int64)
    ensures Encodable(OptionalRevision(revision), 2)
  {
    if revision == INVALID_REVNUM {
      ListOfNone();
    } else {
      ListOfOne(Number(ToUint64(revision)));
    }
  }

  lemma {:induction false} ChecksumFits(checksum: Option<Checksum>)
    ensures Encodable(OptionalChecksumItem(checksum), 2) <==> ShortChecksum(checksum)
  {
    match checksum {
      case None => ListOfNone();
      case Some(c) =>
        ListOfOne(Str(Hex(c)));
        HexLength(c.digest, |c.digest|);
    }
  }

  /** The tokens of the call and of the node it opens are short. */
  predicate ShortTokens(call: Call<Text>, token: Text) {
    Short(token) && match call
      case SetTargetRevision(_) => true
      case OpenRoot(_) => true
      case DeleteEntry(dir, _, _) => Short(dir)
      case AddDirectory(dir, _, _) => Short(dir)
      case OpenDirectory(dir, _, _) => Short(dir)
      case ChangeDirProp(dir, _, _) => Short(dir)
      case AbsentDirectory(dir, _) => Short(dir)
      case AddFile(dir, _, _) => Short(dir)
      case OpenFile(dir, _, _) => Short(dir)
      case AbsentFile(dir, _) => Short(dir)
      case CloseDirectory(dir) => Short(dir)
      case ApplyTextDelta(file, _) => Short(file)
      case DeltaChunk(file, _) => Short(file)
      case DeltaEnd(file) => Short(file)
      case ChangeFileProp(file, _, _) => Short(file)
      case CloseFile(file, _) => Short(file)
      case CloseEdit => true
      case AbortEdit => true
  }

  lemma {:induction false} OpeningParamsFit(call: Call<Text>, token: Text)
    requires Opens(call) && ShortTokens(call, token)
    ensures ParamsFit(Params(call, token)) <==> Small(call)
  {
    var params := Params(call, token);
    match call {
      case OpenRoot(revision) =>
        RevisionFits(revision);
        assert params[0] == OptionalRevision(revision);
      case OpenDirectory(_, path, revision) =>
        RevisionFits(revision);
        assert params[0] == Str(path) && params[3] == OptionalRevision(revision);
      case OpenFile(_, path, revision) =>
        RevisionFits(revision);
        assert params[0] == Str(path) && params[3] == OptionalRevision(revision);
      case AddDirectory(_, path, source) =>
        SourceFits(source);
        assert params[0] == Str(path) && params[3] == CopySourceItem(source);
      case AddFile(_, path, source) =>
        SourceFits(source);
        assert params[0] == Str(path) && params[3] == CopySourceItem(source);
    }
  }

  lemma {:induction false} PropertyParamsFit(call: Call<Text>, token: Text)
    requires call.ChangeDirProp? || call.ChangeFileProp?
    requires ShortTokens(call, token)
    ensures ParamsFit(Params(call, token)) <==> Small(call)
  {
    var params := Params(call, token);
    ValueFits(call.value);
    assert params[1] == Str(call.name) && params[2] == OptionalBytes(call.value);
  }

  lemma {:induction false} ChecksumParamsFit(call: Call<Text>, token: Text)
    requires call.ApplyTextDelta? || call.CloseFile?
    requires ShortTokens(call, token)
    ensures ParamsFit(Params(call, token)) <==> Small(call)
  {
    var params := Params(call, token);
    ChecksumFits(call.checksum);
    assert params[1] == OptionalChecksumItem(call.checksum);
  }

  lemma {:induction false} OtherParamsFit(call: Call<Text>, token: Text)
    requires !Opens(call) && !call.ApplyTextDelta? && !call.CloseFile? && !call.ChangeDirProp? && !call.ChangeFileProp?
    requires ShortTokens(call, token)
    ensures ParamsFit(Params(call, token)) <==> Small(call)
  {
    var params := Params(call, token);
    if call.DeleteEntry? {
      RevisionFits(call.revision);
      assert params[0] == Str(call.path);
    } else if call.AbsentDirectory? || call.AbsentFile? {
      assert params[0] == Str(call.path);
    } else if call.DeltaChunk? {
      assert params[1] == Str(call.data);
    }
  }

  lemma {:induction false} NamedTokensShort(call: Call<nat>, count: nat)
    ensures ShortTokens(Named(call), NewToken(call, count)) && (Small(Named(call)) <==> Small(call))
  {
    forall h: nat
      ensures Short(DirToken(h)) && Short(FileToken(h))
    {
      TokenIsShort(DIRECTORY_PREFIX, Counter(h));
      TokenIsShort(FILE_PREFIX, Counter(h));
    }
  }

  /** The encoder accepts the command of a call exactly when none of the call's strings is longer
      than the wire format allows. */
  lemma {:induction false} FitsExactlyWhenSmall(call: Call<nat>, count: nat)
    ensures Encodable(CommandFor(call, count), 0) <==> Small(call)
  {
    var (named, token) := (Named(call), NewToken(call, count));
    NamedTokensShort(call, count);
    CommandFits(named, token);
    if Opens(named) {
      OpeningParamsFit(named, token);
    } else if named.ApplyTextDelta? || named.CloseFile? {
      ChecksumParamsFit(named, token);
    } else if named.ChangeDirProp? || named.ChangeFileProp? {
      PropertyParamsFit(named, token);
    } else {
      OtherParamsFit(named, token);
    }
  }

  // ----- the whole way -----

  /** What the receiver does with the bytes of a connection. */
  ghost function Receive(editor: EditorDriver.Editor, data: Text): Step {
    Drive(editor, EditorDriver.START, DecodedAll(data), 0)
  }

  /** The commands of all calls. */
  function CommandsOf(calls: seq<Call<nat>>): seq<Item> {
    seq(|calls|, i requires 0 <= i < |calls| => CommandFor(calls[i], NodesAfter(calls, i).count))
  }

  lemma {:induction false} AllFit(calls: seq<Call<nat>>, items: seq<Item>)
    requires AllSmall(calls) && AllSent(calls, items)
    ensures forall i :: 0 <= i < |items| ==> Encodable(items[i], 0)
  {
    forall i | 0 <= i < |items|
      ensures Encodable(items[i], 0)
    {
      FitsExactlyWhenSmall(calls[i], NodesAfter(calls, i).count);
      assert items[i] == CommandFor(calls[i], NodesAfter(calls, i).count);
    }
  }

  /** The commands of a run, encoded, decoded and dispatched. */
  lemma {:induction false} BytesDelivered(editor: EditorDriver.Editor, calls: seq<Call<nat>>, items: seq<Item>)
    requires LegalRun(calls) && |calls| <= TWO_TO_THE_64 && AllSmall(calls) && AllSent(calls, items)
    ensures var step := Receive(editor, EncodedAll(items));
            step.state.seen == Expected(editor, calls) && step.outcome == ExpectedOutcome(editor, calls)
  {
    AllFit(calls, items);
    StreamRoundTrip(items);
    Simulation(editor, calls, items);
  }

  predicate AllSmall(calls: seq<Call<nat>>) {
    forall i :: 0 <= i < |calls| ==> Small(calls[i])
  }

  /** Every legal run of calls whose strings fit, made on the sending editor, is seen by the
      receiving editor, byte for byte over the wire. */
  lemma {:induction false} EditDelivered(editor: EditorDriver.Editor, calls: seq<Call<nat>>, states: seq<Sender>)
    requires LegalRun(calls) && |calls| <= TWO_TO_THE_64 && AllSmall(calls)
    requires IsRun(calls, states, |calls|)
    ensures var step := Receive(editor, EncodedAll(states[|calls|].sent));
            step.state.seen == Expected(editor, calls) && step.outcome == ExpectedOutcome(editor, calls)
  {
    var items := CommandsOf(calls);
    AllFit(calls, items);
    SenderSends(calls, states, items, |calls|, |calls|);
    assert items[..|calls|] == items;
    BytesDelivered(editor, calls, items);
  }

  lemma {:induction false} CutIsLegal(calls: seq<Call<nat>>, k: nat)
    requires LegalRun(calls) && k < |calls|
    ensures LegalRun(Cut(calls, k)) && |Cut(calls, k)| == k + 1 <= |calls|
    ensures AllSmall(calls) ==> AllSmall(Cut(calls, k))
  {
    var cut := Cut(calls, k);
    forall i | 0 <= i < |cut|
      ensures LegalAt(cut, i)
    {
      if i < k {
        assert LegalAt(calls, i);
        SamePrefix(calls, cut, i);
      }
    }
  }

  lemma {:induction false} CutStops(editor: EditorDriver.Editor, calls: seq<Call<nat>>, k: nat)
    requires k <= |calls|
    ensures ExpectedOutcome(editor, Cut(calls, k)) != Continue
  {
    var cut := Cut(calls, k);
    assert Ends(cut[|cut| - 1]);
  }

  /** When the response arrives before call k, the receiving editor sees what it would have seen
      of the first k calls and an abort, and none of the calls from k on. */
  lemma {:induction false} EarlyResponseDelivered(editor: EditorDriver.Editor, calls: seq<Call<nat>>,
                                                  states: seq<Sender>, k: nat)
    requires LegalRun(calls) && |calls| <= TWO_TO_THE_64 && AllSmall(calls)
    requires k < |calls| && !Ends(calls[k]) && IsRun(calls, states, k)
    ensures var step := Receive(editor, EncodedAll(states[|calls|].sent));
            step.state.seen == Expected(editor, Cut(calls, k)) && step.outcome != Continue
  {
    CutIsSent(calls, states, k);
    CutDelivered(editor, calls, k, states[|calls|].sent);
  }

  lemma {:induction false} CutIsSent(calls: seq<Call<nat>>, states: seq<Sender>, k: nat)
    requires LegalRun(calls) && AllSmall(calls) && k < |calls| && !Ends(calls[k]) && IsRun(calls, states, k)
    ensures AllSent(Cut(calls, k), states[|calls|].sent)
  {
    AllFit(calls, CommandsOf(calls));
    NotEnded(calls, k);
    EarlyResponse(calls, states, CommandsOf(calls), k);
  }

  lemma {:induction false} NotEnded(calls: seq<Call<nat>>, k: nat)
    requires LegalRun(calls) && k < |calls| && !Ends(calls[k])
    ensures forall i :: 0 <= i <= k ==> !Ends(calls[i])
  {
  }

  lemma {:induction false} CutDelivered(editor: EditorDriver.Editor, calls: seq<Call<nat>>, k: nat, sent: seq<Item>)
    requires LegalRun(calls) && |calls| <= TWO_TO_THE_64 && AllSmall(calls) && k < |calls|
    requires AllSent(Cut(calls, k), sent)
    ensures var step := Receive(editor, EncodedAll(sent));
            step.state.seen == Expected(editor, Cut(calls, k)) && step.outcome != Continue
  {
    CutIsLegal(calls, k);
    CutStops(editor, calls, k);
    BytesDelivered(editor, Cut(calls, k), sent);
  }

  // ----- text deltas inside an edit -----

  /** The bytes of the chunks for one file among the calls from m to n. */
  function ChunksFor(calls: seq<Call<nat>>, file: nat, m: nat, n: nat): Text
    requires m <= n <= |calls|
  {
    if m == n then []
    else match calls[n - 1]
      case DeltaChunk(f, data) =>
        if f == file then ChunksFor(calls, file, m, n - 1) + data else ChunksFor(calls, file, m, n - 1)
      case _ => ChunksFor(calls, file, m, n - 1)
  }

  /** The call neither starts nor ends the text delta of the file. */
  predicate LeavesOpen(call: Call<nat>, file: nat) {
    && (call.ApplyTextDelta? ==> call.file != file)
    && (call.DeltaEnd? ==> call.file != file)
    && !call.AbortEdit?
  }

  lemma {:induction false} LeftOpen(s: Nodes, call: Call<nat>, file: nat)
    requires file in s.deltas && LeavesOpen(call, file)
    ensures file in After(s, call).deltas
    ensures After(s, call).deltas[file] ==
            if call.DeltaChunk? && call.file == file then s.deltas[file] + call.data else s.deltas[file]
  {
  }

  lemma {:induction false} ChunksCollect(calls: seq<Call<nat>>, file: nat, m: nat, n: nat)
    requires m < n <= |calls| && calls[m].ApplyTextDelta? && calls[m].file == file
    requires forall i :: m < i < n ==> LeavesOpen(calls[i], file)
    ensures var s := NodesAfter(calls, n);
            file in s.deltas && s.deltas[file] == ChunksFor(calls, file, m + 1, n)
    decreases n - m
  {
    if n > m + 1 {
      ChunksCollect(calls, file, m, n - 1);
      LeftOpen(NodesAfter(calls, n - 1), calls[n - 1], file);
    }
  }

  /** A text delta arrives in one piece: whatever calls lie between its chunks, the editor sees
      the concatenation of all of them when it ends. */
  lemma {:induction false} DeltaDelivered(calls: seq<Call<nat>>, file: nat, m: nat, n: nat)
    requires m < n < |calls| && calls[m].ApplyTextDelta? && calls[m].file == file && calls[n] == DeltaEnd(file)
    requires forall i :: m < i < n ==> LeavesOpen(calls[i], file)
    ensures Visible(NodesAfter(calls, n), calls[n]) == [Delta(file, ChunksFor(calls, file, m + 1, n))]
  {
    ChunksCollect(calls, file, m, n);
  }

  /** Where the chunks carry an encoded text delta, applying what arrives to the source yields the
      target, exactly when every window fits the decoder's limits. */
  lemma {:induction false} DeltaApplied(calls: seq<Call<nat>>, file: nat, m: nat, n: nat, codec: Svndiff.Codec,
                                        version: Svndiff.Version, source: Slice, target: Text,
                                        windows: seq<Window.Window>)
    requires m < n < |calls| && calls[m].ApplyTextDelta? && calls[m].file == file && calls[n] == DeltaEnd(file)
    requires forall i :: m < i < n ==> LeavesOpen(calls[i], file)
    requires Svndiff.Inverse(codec) && DeltaStream.Delta(source, target, windows) && E.AllWritable(windows)
    requires ChunksFor(calls, file, m + 1, n) == E.EncodeDelta(codec, version, windows)
    ensures |Visible(NodesAfter(calls, n), calls[n])| == 1
    ensures var seen := Visible(NodesAfter(calls, n), calls[n])[0];
            && seen.Delta? && seen.file == file && E.START.position <= |seen.data|
            && (DeltaApply.ApplyFrom(codec, version, source, seen.data, E.START, []) == DeltaApply.Applied(target, None)
                <==> E.AllFrom(E.WhichFit(codec, version, windows), 0))
  {
    DeltaDelivered(calls, file, m, n);
    E.DeltaRoundTrip(codec, version, source, target, windows);
  }
}
