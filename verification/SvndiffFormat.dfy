/** What the bytes of an svndiff stream stand for (delta/svndiff_write.go, delta/svndiff_read.go):
    the classes of instructions by their first byte, and the layout of a window. */
module SvndiffFormat {
  import opened Bytes
  import opened Common
  import opened Window
  import opened Instructions
  import V = Varint
  import S = Svndiff

  /** The length of an instruction: in its low six bits, or behind them where those are zero. */
  function LengthAt(data: seq<byte>, position: nat): V.Outcome
    requires position < |data|
  {
    if data[position] % 64 != 0 then V.Value(data[position] % 64, position + 1) else V.Consume(data, position + 1)
  }

  /** The bytes behind `view` repeat those from `offset` on, one by one. */
  ghost predicate Repeats(view: seq<byte>, after: seq<byte>, offset: int, length: int) {
    && view <= after && |after| == |view| + length && 0 <= offset < |view|
    && forall k :: |view| <= k < |after| ==> after[k] == after[k - (|view| - offset)]
  }

  /** How an instruction with this first byte makes the target view grow: below 64 by a range of
      the source, below 128 by bytes of the view itself, below 192 by new data. */
  ghost predicate Grows(first: byte, offset: int, length: int, source: seq<byte>, newData: seq<byte>,
                        view: seq<byte>, after: seq<byte>)
  {
    && first < 192 && 0 <= offset && 0 < length
    && (first < 64 ==> offset + length <= |source| && after == view + source[offset..offset + length])
    && (64 <= first < 128 ==> Repeats(view, after, offset, length))
    && (128 <= first ==> offset + length <= |newData| && after == view + newData[offset..offset + length])
  }

  /** A decoded instruction does what its first byte says, with the length and, unless it takes new
      data at the running counter, the offset that stand behind it; 192 and above are refused. */
  lemma {:induction false} InstructionMeans(data: seq<byte>, position: nat, newPosition: int64,
                                            source: seq<byte>, newData: seq<byte>, view: seq<byte>)
    requires position < |data|
    ensures data[position] >= 192 ==> DecodeOp(data, position, newPosition).Err?
    ensures var r := DecodeOp(data, position, newPosition);
            r.Ok? && OpFits(r.value.op, |source|, |view|, |newData|) ==>
              && LengthAt(data, position).Value?
              && var length := LengthAt(data, position);
                 var offset := if data[position] < 128 then V.Consume(data, length.next) else V.Value(newPosition, length.next);
                 && offset.Value? && r.value.next == offset.next
                 && Grows(data[position], offset.value, length.value, source, newData, view,
                          Step(source, newData, view, r.value.op))
  {
    var r := DecodeOp(data, position, newPosition);
    if r.Ok? && OpFits(r.value.op, |source|, |view|, |newData|) && 64 <= data[position] < 128 {
      CopyTargetBytes(view, r.value.op.offset, r.value.op.length);
    }
  }

  /** The first byte that is written for an op tells what the op appends. */
  lemma {:induction false} EncodedMeans(op: Op, source: seq<byte>, newData: seq<byte>, view: seq<byte>)
    requires OpFits(op, |source|, |view|, |newData|)
    ensures EncodeOp(op)[0] % 64 == if op.length < 64 then op.length else 0
    ensures Grows(EncodeOp(op)[0], op.offset, op.length, source, newData, view, Step(source, newData, view, op))
  {
    if 64 <= EncodeOp(op)[0] < 128 {
      CopyTargetBytes(view, op.offset, op.length);
    }
  }

  /** The instruction of op i stands in the section behind those of the ops before it, and its
      first byte tells how the view grows. */
  lemma {:induction false} SectionMeans(ops: seq<Op>, i: nat, source: seq<byte>, newData: seq<byte>)
    requires OpsFit(ops, |ops|, |source|, |newData|) && i < |ops|
    ensures AllEncodable(ops) && |Joined(Parts(ops), i)| < |EncodeOps(ops)|
    ensures Grows(EncodeOps(ops)[|Joined(Parts(ops), i)|], ops[i].offset, ops[i].length, source, newData,
                  Expand(source, newData, ops, i), Expand(source, newData, ops, i + 1))
  {
    OpsFitEncodable(ops, |source|, |newData|);
    JoinedPart(Parts(ops), i, |ops|);
    assert OpFitsAt(ops, i, |source|, |newData|);
    EncodedMeans(ops[i], source, newData, Expand(source, newData, ops, i));
    SliceByte(EncodeOp(ops[i]), EncodeOps(ops), |Joined(Parts(ops), i)|, 0);
  }

  // ----- the layout of a window -----

  /** A section: plain in version 0; otherwise its length, and behind it either the contents, or
      something shorter that the compressor made of them. Version 1 leaves contents below 512 bytes
      alone. */
  lemma {:induction false} SectionLayout(codec: S.Codec, data: Slice)
    ensures S.EncodeSection(codec, 0, data) == data
    ensures |data| < 512 || |codec.zlib[data]| >= |data| ==> S.EncodeSection(codec, 1, data) == V.Encode(|data|) + data
    ensures |data| >= 512 && |codec.zlib[data]| < |data| ==>
              S.EncodeSection(codec, 1, data) == V.Encode(|data|) + codec.zlib[data]
    ensures S.EncodeSection(codec, 2, data) ==
            V.Encode(|data|) + if |codec.lz4[data]| < |data| then codec.lz4[data] else data
  {
  }

  /** A window: source offset, source length, target length and the lengths of the two sections as
      they are stored, in this order, and behind them the instructions and the new data. */
  lemma {:induction false} WindowLayout(codec: S.Codec, version: S.Version, w: Window)
    requires Valid(w) && S.GoSized(w)
    ensures var instructions := S.EncodeSection(codec, version, S.Instructions(w));
            var newData := S.EncodeSection(codec, version, w.newData);
            S.EncodeWindow(codec, version, w) ==
            V.Encode(w.sourceOffset) + V.Encode(w.sourceLength) + V.Encode(w.targetLength)
              + V.Encode(|instructions|) + V.Encode(|newData|) + (instructions + newData)
  {
    S.SectionIsSized(codec, version, S.Instructions(w));
    S.SectionIsSized(codec, version, w.newData);
    V.FiveEncoded(w.sourceOffset, w.sourceLength, w.targetLength,
                  |S.EncodeSection(codec, version, S.Instructions(w))|, |S.EncodeSection(codec, version, w.newData)|);
  }

  /** The stream starts with the letters SVN and the version. */
  lemma {:induction false} MagicIsText(version: S.Version)
    ensures var magic := S.Magic(version);
            |magic| == 4 && magic[0] == 'S' as int && magic[1] == 'V' as int && magic[2] == 'N' as int && magic[3] == version
  {
  }
}
