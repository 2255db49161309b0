/** Applying a stream of windows (delta/apply.go). */
module DeltaApply {
  import opened Common
  import opened Svndiff
  import opened Window
  import I = Instructions
  import V = Varint

  datatype ApplyError =
    | Unreadable(error: SvndiffError)
    | ShortSource
    | BadWindow(fault: InvalidOps)
    | ChecksumMismatch

  /** What has been written when the loop stops, and why it stopped early, if it did. */
  datatype Applied = Applied(output: seq<byte>, error: Option<ApplyError>)

  /** The bytes of the source that a window looks at; an empty view reads nothing. */
  function SourceView(source: seq<byte>, w: Window): Option<seq<byte>> {
    if w.sourceLength <= 0 then Some([])
    else if w.sourceOffset < 0 || w.sourceOffset + w.sourceLength > |source| then None
    else Some(source[w.sourceOffset..w.sourceOffset + w.sourceLength])
  }

  /** The loop from one window on. */
  ghost function ApplyFrom(codec: Codec, version: Version, source: seq<byte>, data: seq<byte>, state: State, output: seq<byte>): Applied
    requires state.position <= |data|
    decreases |data| - state.position
  {
    var reply := WindowAt(codec, version, data, state);
    match reply.outcome
    case End => Applied(output, None)
    case Failed(error) => Applied(output, Some(Unreadable(error)))
    case Decoded(w) =>
      var view := SourceView(source, w);
      if view == None then Applied(output, Some(ShortSource))
      else if !Valid(w) || |view.value| != w.sourceLength then Applied(output, Some(BadWindow(WrongSourceView)))
      else ApplyFrom(codec, version, source, data, reply.state, output + Expand(view.value, w.newData, w.ops, |w.ops|))
  }

  /** A window that the decoder returns is valid, so that applying it cannot fail. */
  lemma {:induction false} DecodedIsValid(codec: Codec, version: Version, data: seq<byte>, state: State)
    requires state.position <= |data| && WindowAt(codec, version, data, state).outcome.Decoded?
    ensures Valid(WindowAt(codec, version, data, state).outcome.window)
    ensures var w := WindowAt(codec, version, data, state).outcome.window;
            InOrder(w.ops, |w.newData|) && w.sourceLength <= 102400 && w.targetLength <= 102400
  {
    var stage := HeaderAt(data, state);
    BodyIsValid(codec, version, data, stage.next, stage.header);
  }

  lemma {:induction false} BodyIsValid(codec: Codec, version: Version, data: seq<byte>, position: nat, header: seq<uint64>)
    requires position <= |data| && |header| == 5 && WithinLimits(header)
    requires ReadBody(codec, version, data, position, header).outcome.Decoded?
    ensures var w := ReadBody(codec, version, data, position, header).outcome.window;
            Valid(w) && InOrder(w.ops, |w.newData|)
            && w.sourceLength == header[1] && w.targetLength == header[2]
  {
    var instructions := ReadSection(codec, version, data, position, header[3], MAX_INSTRUCTION_SECTION_SIZE);
    var newData := ReadSection(codec, version, data, instructions.next, header[4], MAX_WINDOW_SIZE);
    I.DecodedIsInOrder(instructions.contents.value, header[1], header[2], |newData.contents.value|);
  }

  /** The digest of a byte string; a total table. */
  type Digest = d: imap<seq<byte>, seq<byte>> | TotalDigest(d) ghost witness Plain()

  ghost predicate TotalDigest(d: imap<seq<byte>, seq<byte>>) {
    forall data: seq<byte> :: data in d
  }

  ghost function Plain(): imap<seq<byte>, seq<byte>> {
    imap data: seq<byte> :: Unchanged(data)
  }

  /** Read a source view into the reused buffer, which only ever grows. */
  method ReadView(source: seq<byte>, w: Window, buffer: array<byte>) returns (view: Option<seq<byte>>, next: array<byte>)
    requires w.sourceOffset >= 0 && w.sourceLength >= 0
    modifies buffer
    ensures next == buffer || fresh(next)
    ensures view == SourceView(source, w)
  {
    next := buffer;
    if buffer.Length < w.sourceLength {
      next := new byte[w.sourceLength](_ => 0);
    }
    if w.sourceLength > 0 {
      if w.sourceOffset + w.sourceLength > |source| {
        return None, next;
      }
      for i := 0 to w.sourceLength
        invariant next[..i] == source[w.sourceOffset..w.sourceOffset + i]
        modifies next
      {
        next[i] := source[w.sourceOffset + i];
      }
    }
    view := Some(next[..w.sourceLength]);
  }

  /** Apply, over a decoder as the window reader. */
  method Apply(source: seq<byte>, windows: Decoder, md5: Digest, expected: Option<seq<byte>>) returns (r: Applied, actual: seq<byte>)
    requires windows.Ready()
    modifies windows, windows.reader
    ensures var applied := ApplyFrom(windows.codec, windows.version, source, windows.reader.data, old(windows.Now()), []);
            && r.output == applied.output
            && (applied.error.Some? ==> r.error == applied.error)
            && (applied.error.None? ==>
                  && actual == md5[applied.output]
                  && r.error == if expected.None? || expected.value == actual then None else Some(ChecksumMismatch))
  {
    var output: seq<byte> := [];
    var buffer := new byte[0];
    actual := [];
    ghost var codec, version, data := windows.codec, windows.version, windows.reader.data;
    ghost var start := windows.Now();
    while true
      invariant windows.Ready() && fresh(buffer)
      invariant ApplyFrom(codec, version, source, data, start, [])
                == ApplyFrom(codec, version, source, data, windows.Now(), output)
      decreases |data| - windows.reader.position
    {
      ghost var before := windows.Now();
      var outcome := windows.NextWindow();
      match outcome {
        case End => break;
        case Failed(error) => return Applied(output, Some(Unreadable(error))), actual;
        case Decoded(window) =>
          DecodedIsValid(codec, version, data, before);
          var view;
          view, buffer := ReadView(source, window, buffer);
          if view == None {
            return Applied(output, Some(ShortSource)), actual;
          }
          var contents := ApplyWindow(view.value, window);
          if contents.Err? {
            return Applied(output, Some(BadWindow(contents.error))), actual;
          }
          output := output + contents.value;
      }
    }
    actual := md5[output];
    if expected.Some? && expected.value != actual {
      return Applied(output, Some(ChecksumMismatch)), actual;
    }
    return Applied(output, None), actual;
  }
}
