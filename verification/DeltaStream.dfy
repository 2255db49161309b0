/** Chunked delta streams (delta/txstream.go) and their application (delta/apply.go). */
module DeltaStream {
  import opened Common
  import opened Differ
  import opened Svndiff
  import opened Window
  import V = Varint

  // ----- chunks -----

  /** Where chunk i of a stream starts: the end of the stream, once it has run out. */
  function ChunkStart(stream: seq<byte>, i: nat): (r: nat)
    ensures r <= |stream|
  {
    Min(i * MAX_WINDOW_SIZE, |stream|)
  }

  function Chunk(stream: seq<byte>, i: nat): (r: seq<byte>)
    ensures |r| <= MAX_WINDOW_SIZE
  {
    stream[ChunkStart(stream, i)..ChunkStart(stream, i + 1)]
  }

  /** Window i carries source chunk i to target chunk i, found by the greedy scan. */
  ghost predicate DeltaAt(source: seq<byte>, target: seq<byte>, windows: seq<Window>, i: nat)
    requires i < |windows|
  {
    && windows[i].sourceOffset == ChunkStart(source, i)
    && Rebuilds(Chunk(source, i), Chunk(target, i), windows[i])
    && Greedy(Chunk(source, i), Chunk(target, i), windows[i].ops)
  }

  /** The windows of the first chunks of a stream. */
  ghost predicate DeltaPrefix(source: seq<byte>, target: seq<byte>, windows: seq<Window>) {
    forall i :: 0 <= i < |windows| ==> DeltaAt(source, target, windows, i)
  }

  /** A whole delta: a window for every target chunk that is not empty. */
  ghost predicate Delta(source: seq<byte>, target: seq<byte>, windows: seq<Window>) {
    && DeltaPrefix(source, target, windows)
    && ChunkStart(target, |windows|) == |target|
    && forall i :: 0 <= i < |windows| ==> ChunkStart(target, i) < |target|
  }

  // ----- the stream -----

  /** io.ReadFull into a window-sized buffer, with a short read at the end of the stream. */
  method ReadWindowChunk(reader: V.ByteReader) returns (chunk: seq<byte>)
    requires reader.Valid()
    modifies reader
    ensures reader.Valid()
    ensures reader.position == Min(old(reader.position) + 102400, |reader.data|)
    ensures chunk == reader.data[old(reader.position)..reader.position]
  {
    var count := Min(MAX_WINDOW_SIZE, |reader.data| - reader.position);
    var read := reader.ReadFull(count);
    chunk := read.value;
  }

  class TxDeltaStream {
    const source: V.ByteReader
    const target: V.ByteReader
    var digested: seq<byte>
    var sourceOffset: int64
    var done: bool
    ghost var windows: seq<Window>

    constructor (source: V.ByteReader, target: V.ByteReader)
      requires source != target && source.position == 0 && target.position == 0
      requires |source.data| <= MAX_INT64
      ensures this.source == source && this.target == target
      ensures Valid() && windows == [] && digested == [] && !done
    {
      this.source := source;
      this.target := target;
      digested := [];
      sourceOffset := 0;
      done := false;
      windows := [];
    }

    /** After n windows both readers stand at the start of chunk n. */
    ghost predicate Valid()
      reads this, source, target
    {
      && source != target && source.Valid() && target.Valid()
      && |source.data| <= MAX_INT64
      && source.position == ChunkStart(source.data, |windows|) == sourceOffset
      && target.position == ChunkStart(target.data, |windows|)
      && digested == target.data[..target.position]
      && DeltaPrefix(source.data, target.data, windows)
      && (done ==> target.position == |target.data|)
    }

    /** The next window, or none once the target has run out. */
    method NextWindow() returns (r: Option<Window>)
      requires Valid()
      modifies this, source, target
      ensures Valid()
      ensures r.Some? <==> old(!done && target.position < |target.data|)
      ensures r.Some? ==> windows == old(windows) + [r.value]
      ensures r.None? ==> windows == old(windows) && done
    {
      if done {
        return None;
      }
      var targetChunk := ReadWindowChunk(target);
      if |targetChunk| == 0 {
        done := true;
        assert target.data[..target.position] == digested;
        return None;
      }
      var sourceChunk := ReadWindowChunk(source);
      assert digested + targetChunk == target.data[..target.position];
      digested := digested + targetChunk;
      var window := BuildWindow(sourceChunk, targetChunk, sourceOffset);
      ExtendsPrefix(source.data, target.data, windows, window);
      sourceOffset := sourceOffset + |sourceChunk|;
      windows := windows + [window];
      return Some(window);
    }
  }

  lemma {:induction false} ExtendsPrefix(source: seq<byte>, target: seq<byte>, windows: seq<Window>, window: Window)
    requires DeltaPrefix(source, target, windows)
    requires window.sourceOffset == ChunkStart(source, |windows|)
    requires Rebuilds(Chunk(source, |windows|), Chunk(target, |windows|), window)
    requires Greedy(Chunk(source, |windows|), Chunk(target, |windows|), window.ops)
    ensures DeltaPrefix(source, target, windows + [window])
  {
    forall i | 0 <= i < |windows + [window]|
      ensures DeltaAt(source, target, windows + [window], i)
    {
      assert i < |windows| ==> DeltaAt(source, target, windows, i);
    }
  }
}
