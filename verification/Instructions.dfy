/** The instruction section of a window (delta/svndiff_write.go encodeInstructions,
    delta/svndiff_read.go decodeInstructions). */
module Instructions {
  import opened Bytes
  import opened Common
  import opened Window
  import V = Varint

  // ----- encoding -----

  /** What Validate promises the encoder about each op. */
  predicate Encodable(op: Op) {
    op.kind <= OP_NEW && op.offset >= 0 && op.length > 0
  }

  predicate AllEncodable(ops: seq<Op>) {
    forall i :: 0 <= i < |ops| ==> Encodable(ops[i])
  }

  function EncodeHead(kind: OpKind, length: int64): seq<byte>
    requires kind <= OP_NEW && length > 0
  {
    if length < 64 then [kind * 64 + length] else [kind * 64] + V.Encode(length)
  }

  /** Selector in the top two bits; a length under 64 in the other six, or else behind it; an
      offset unless the bytes are new data. */
  function EncodeOp(op: Op): seq<byte>
    requires Encodable(op)
  {
    EncodeHead(op.kind, op.length) + (if op.kind != OP_NEW then V.Encode(op.offset) else [])
  }

  function Parts(ops: seq<Op>): (r: seq<seq<byte>>)
    requires AllEncodable(ops)
    ensures |r| == |ops|
  {
    seq(|ops|, i requires 0 <= i < |ops| => EncodeOp(ops[i]))
  }

  function EncodeOps(ops: seq<Op>): seq<byte>
    requires AllEncodable(ops)
  {
    Joined(Parts(ops), |ops|)
  }

  method EncodeInstructions(ops: seq<Op>) returns (encoded: seq<byte>)
    requires AllEncodable(ops)
    ensures encoded == EncodeOps(ops)
  {
    encoded := [];
    ghost var parts := Parts(ops);
    for i := 0 to |ops|
      invariant encoded == Joined(parts, i)
    {
      assert parts[i] == EncodeOp(ops[i]);
      encoded := AppendInstruction(encoded, ops[i]);
    }
  }

  /** The body of the encoding loop. */
  method AppendInstruction(destination: seq<byte>, operation: Op) returns (encoded: seq<byte>)
    requires Encodable(operation)
    ensures encoded == destination + EncodeOp(operation)
  {
    var first: byte := operation.kind * 64;
    if operation.length < 64 {
      encoded := destination + [first + operation.length];
    } else {
      encoded := destination + [first];
      encoded := V.AppendVarint(encoded, operation.length);
    }
    if operation.kind != OP_NEW {
      encoded := V.AppendVarint(encoded, operation.offset);
    }
  }

  lemma {:induction false} EncodeOpLength(op: Op)
    requires Encodable(op)
    ensures 1 <= |EncodeOp(op)| <= 21
    ensures op.kind == OP_NEW ==> |EncodeOp(op)| <= op.length
  {
    V.EncodeLengthUint64(op.length);
    V.EncodeLengthUint64(op.offset);
  }

  /** The decoder's limit on the section: 21 bytes for each byte of the target. */
  lemma {:induction false} EncodeOpsLength(ops: seq<Op>)
    requires AllEncodable(ops)
    ensures |EncodeOps(ops)| <= 21 * Start(ops, |ops|)
  {
    var marks := seq(|ops| + 1, i requires 0 <= i <= |ops| => 21 * Start(ops, i));
    forall i | 0 <= i < |ops| ensures |Parts(ops)[i]| <= marks[i + 1] - marks[i] {
      EncodeOpLength(ops[i]);
    }
    JoinedAtMost(Parts(ops), |ops|, marks);
  }

  lemma {:induction false} EncodeOpsCount(ops: seq<Op>)
    requires AllEncodable(ops)
    ensures |EncodeOps(ops)| <= 21 * |ops|
  {
    var marks := seq(|ops| + 1, i requires 0 <= i <= |ops| => 21 * i);
    forall i | 0 <= i < |ops| ensures |Parts(ops)[i]| <= marks[i + 1] - marks[i] {
      EncodeOpLength(ops[i]);
    }
    JoinedAtMost(Parts(ops), |ops|, marks);
  }

  /** Ops of at least 64 bytes, or of new data, take no more bytes than they produce. */
  lemma {:induction false} LongOpsLength(ops: seq<Op>)
    requires AllEncodable(ops)
    requires forall i :: 0 <= i < |ops| ==> ops[i].kind == OP_NEW || ops[i].length >= 64
    ensures |EncodeOps(ops)| <= Start(ops, |ops|)
  {
    var marks := seq(|ops| + 1, i requires 0 <= i <= |ops| => Start(ops, i));
    forall i | 0 <= i < |ops| ensures |Parts(ops)[i]| <= marks[i + 1] - marks[i] {
      EncodeOpLength(ops[i]);
    }
    JoinedAtMost(Parts(ops), |ops|, marks);
  }

  // ----- decoding -----

  datatype InstructionError = BadSelector | BadLength | BadOffset

  datatype Head = Head(kind: OpKind, length: int64, next: nat)

  /** Selector and length. */
  function DecodeHead(data: seq<byte>, position: nat): (r: Result<Head, InstructionError>)
    requires position < |data|
    ensures r.Ok? ==> position < r.value.next <= |data|
    ensures r.Ok? ==> r.value.kind <= OP_NEW && r.value.length > 0
  {
    var first := data[position];
    if first / 64 > OP_NEW then Err(BadSelector)
    else
      var length := if first % 64 == 0 then V.Consume(data, position + 1) else V.Value(first % 64, position + 1);
      if !length.Value? || length.value == 0 || length.value > MAX_INT64 then Err(BadLength)
      else Ok(Head(first / 64, length.value, length.next))
  }

  datatype Instruction = Instruction(op: Op, next: nat)

  /** One instruction at `position`; new data starts at the running counter. */
  function DecodeOp(data: seq<byte>, position: nat, newPosition: int64): (r: Result<Instruction, InstructionError>)
    requires position < |data|
    ensures r.Ok? ==> position < r.value.next <= |data|
    ensures r.Ok? && r.value.op.kind == OP_NEW ==> r.value.op.offset == newPosition
  {
    var head := DecodeHead(data, position);
    if head.Err? then Err(head.error)
    else
      var (kind, length) := (head.value.kind, head.value.length);
      if kind == OP_NEW then Ok(Instruction(Op(kind, newPosition, length), head.value.next))
      else
        var offset := V.Consume(data, head.value.next);
        if !offset.Value? || offset.value > MAX_INT64 then Err(BadOffset)
        else Ok(Instruction(Op(kind, offset.value, length), offset.next))
  }

  /** The counter after an op; Go's int addition wraps around. */
  function Advance(newPosition: int64, op: Op): int64 {
    if op.kind == OP_NEW then WrapInt64(newPosition + op.length) else newPosition
  }

  datatype Section = Section(ops: seq<Op>, newPosition: int64)

  /** The decoding loop from one iteration on. */
  function DecodeFrom(data: seq<byte>, position: nat, section: Section): (r: Result<Section, InstructionError>)
    requires position <= |data|
    decreases |data| - position
  {
    if position == |data| then Ok(section)
    else
      var step := DecodeOp(data, position, section.newPosition);
      if step.Err? then Err(step.error) else DecodeFrom(data, step.value.next, Extend(section, step.value.op))
  }

  function Extend(section: Section, op: Op): Section {
    Section(section.ops + [op], Advance(section.newPosition, op))
  }

  /** What decodeInstructions accepts, and the ops it then returns. */
  ghost function Decoded(data: seq<byte>, sourceLength: int, targetLength: int, newLength: nat): Option<seq<Op>> {
    var r := DecodeFrom(data, 0, Section([], 0));
    if r.Err? then None
    else if !Acceptable(r.value, sourceLength, targetLength, newLength) then None
    else Some(r.value.ops)
  }

  ghost predicate Acceptable(section: Section, sourceLength: int, targetLength: int, newLength: nat) {
    && sourceLength >= 0 && targetLength >= 0
    && OpsFit(section.ops, |section.ops|, sourceLength, newLength)
    && Start(section.ops, |section.ops|) == targetLength
    && section.newPosition == newLength
  }

  method DecodeInstructions(data: seq<byte>, sourceLength: int64, targetLength: int64, newLength: nat)
    returns (r: Option<seq<Op>>)
    ensures r == Decoded(data, sourceLength, targetLength, newLength)
  {
    var operations: seq<Op> := [];
    var position := 0;
    var newPosition: int64 := 0;
    while position < |data|
      invariant 0 <= position <= |data|
      invariant DecodeFrom(data, 0, Section([], 0)) == DecodeFrom(data, position, Section(operations, newPosition))
      decreases |data| - position
    {
      var step := ReadInstruction(data, position, newPosition);
      if step.Err? {
        return None;
      }
      var operation := step.value.op;
      operations := operations + [operation];
      newPosition := Advance(newPosition, operation);
      position := step.value.next;
    }
    var zeros := seq(newLength, _ => 0);
    var error := Validate(Window(0, sourceLength, targetLength, operations, zeros));
    if error.Some? {
      return None;
    }
    if newPosition != newLength {
      return None;
    }
    return Some(operations);
  }

  /** The body of the decoding loop. */
  method ReadInstruction(data: seq<byte>, start: nat, newPosition: int64) returns (r: Result<Instruction, InstructionError>)
    requires start < |data|
    ensures r == DecodeOp(data, start, newPosition)
  {
    var position := start;
    var instruction := data[position];
    position := position + 1;
    var kind: byte := instruction / 64;
    if kind > OP_NEW {
      return Err(BadSelector);
    }
    var length := instruction % 64;
    if length == 0 {
      var outcome := V.ConsumeVarint(data, position);
      if !outcome.Value? {
        return Err(BadLength);
      }
      length := outcome.value;
      position := outcome.next;
    }
    if length == 0 || length > MAX_INT64 {
      return Err(BadLength);
    }
    var offset: int := newPosition;
    if kind != OP_NEW {
      var outcome := V.ConsumeVarint(data, position);
      if !outcome.Value? || outcome.value > MAX_INT64 {
        return Err(BadOffset);
      }
      offset := outcome.value;
      position := outcome.next;
    }
    return Ok(Instruction(Op(kind, offset, length), position));
  }

  // ----- decoding undoes encoding -----

  lemma {:induction false} DecodeHeadOfEncoded(data: seq<byte>, position: nat, kind: OpKind, length: int64)
    requires kind <= OP_NEW && length > 0 && StandsAt(EncodeHead(kind, length), data, position)
    ensures position < |data|
    ensures DecodeHead(data, position) == Ok(Head(kind, length, position + |EncodeHead(kind, length)|))
  {
    var first := EncodeHead(kind, length)[0];
    assert first == data[position..position + |EncodeHead(kind, length)|][0] == data[position];
    if length >= 64 {
      StandsAtParts([first], V.Encode(length), data, position);
      V.RoundTripAt(data, position + 1, length);
    }
  }

  lemma {:induction false} DecodeOpOfEncoded(data: seq<byte>, position: nat, op: Op, newPosition: int64)
    requires Encodable(op) && StandsAt(EncodeOp(op), data, position)
    requires op.kind == OP_NEW ==> op.offset == newPosition
    ensures position < |data|
    ensures DecodeOp(data, position, newPosition) == Ok(Instruction(op, position + |EncodeOp(op)|))
  {
    if op.kind == OP_NEW {
      DecodeNewOfEncoded(data, position, op);
    } else {
      DecodeCopyOfEncoded(data, position, op, newPosition);
    }
  }

  lemma {:induction false} DecodeNewOfEncoded(data: seq<byte>, position: nat, op: Op)
    requires Encodable(op) && op.kind == OP_NEW && StandsAt(EncodeOp(op), data, position)
    ensures position < |data|
    ensures DecodeOp(data, position, op.offset) == Ok(Instruction(op, position + |EncodeOp(op)|))
  {
    var head := EncodeHead(op.kind, op.length);
    assert EncodeOp(op) == head + [] == head;
    DecodeHeadOfEncoded(data, position, op.kind, op.length);
    DecodeOpParts(data, position, op, op.offset, position + |head|, position + |head|);
  }

  lemma {:induction false} DecodeCopyOfEncoded(data: seq<byte>, position: nat, op: Op, newPosition: int64)
    requires Encodable(op) && op.kind != OP_NEW && StandsAt(EncodeOp(op), data, position)
    ensures position < |data|
    ensures DecodeOp(data, position, newPosition) == Ok(Instruction(op, position + |EncodeOp(op)|))
  {
    var head, offset := EncodeHead(op.kind, op.length), V.Encode(op.offset);
    StandsAtParts(head, offset, data, position);
    DecodeHeadOfEncoded(data, position, op.kind, op.length);
    V.RoundTripAt(data, position + |head|, op.offset);
    DecodeOpParts(data, position, op, newPosition, position + |head|, position + |head| + |offset|);
  }

  lemma {:induction false} DecodeOpParts(data: seq<byte>, position: nat, op: Op, newPosition: int64, middle: nat, end: nat)
    requires position < |data| && Encodable(op) && DecodeHead(data, position) == Ok(Head(op.kind, op.length, middle))
    requires if op.kind == OP_NEW then op.offset == newPosition && middle == end
             else V.Consume(data, middle) == V.Value(op.offset, end)
    ensures DecodeOp(data, position, newPosition) == Ok(Instruction(op, end))
  {
  }

  /** Op lists whose new-data offsets the running counter reproduces without wrapping. */
  ghost predicate Countable(ops: seq<Op>) {
    && AllEncodable(ops)
    && (forall i :: 0 <= i < |ops| ==> SequentialAt(ops, i))
    && (forall i :: 0 <= i <= |ops| ==> 0 <= NewBefore(ops, i) <= MAX_INT64)
  }

  /** What the decoding loop holds when it has read n ops. */
  ghost function FirstOps(ops: seq<Op>, n: nat): Section
    requires Countable(ops) && n <= |ops|
  {
    Section(ops[..n], NewBefore(ops, n))
  }

  /** Where each op's encoding starts, and where the last one ends. */
  ghost function Offsets(ops: seq<Op>): (r: seq<nat>)
    requires AllEncodable(ops)
    ensures |r| == |ops| + 1
  {
    seq(|ops| + 1, i requires 0 <= i <= |ops| => |Joined(Parts(ops), i)|)
  }

  /** Op n is what the decoder reads between two positions. */
  ghost predicate DecodesAt(data: seq<byte>, at: seq<nat>, ops: seq<Op>, n: nat)
    requires |at| == |ops| + 1 && Countable(ops) && n < |ops|
  {
    at[n] < |data| && DecodeOp(data, at[n], NewBefore(ops, n)) == Ok(Instruction(ops[n], at[n + 1]))
  }

  lemma {:induction false} StandsDecodesAt(data: seq<byte>, at: seq<nat>, ops: seq<Op>, n: nat)
    requires |at| == |ops| + 1 && Countable(ops) && n < |ops|
    requires StandsAt(EncodeOp(ops[n]), data, at[n]) && at[n + 1] == at[n] + |EncodeOp(ops[n])|
    ensures DecodesAt(data, at, ops, n)
  {
    assert SequentialAt(ops, n);
    DecodeOpOfEncoded(data, at[n], ops[n], NewBefore(ops, n));
  }

  /** A loop that has read n ops collects the others. */
  lemma {:induction false} DecodeRest(data: seq<byte>, at: seq<nat>, ops: seq<Op>, n: nat)
    requires Countable(ops) && n <= |ops| && |at| == |ops| + 1 && at[|ops|] == |data|
    requires forall i :: 0 <= i < |ops| ==> DecodesAt(data, at, ops, i)
    ensures at[n] <= |data|
    ensures DecodeFrom(data, at[n], FirstOps(ops, n)) == Ok(Section(ops, NewBefore(ops, |ops|)))
    decreases |ops| - n
  {
    if n == |ops| {
      assert ops[..n] == ops;
    } else {
      assert DecodesAt(data, at, ops, n);
      assert 0 <= NewBefore(ops, n + 1) <= MAX_INT64;
      assert ops[..n] + [ops[n]] == ops[..n + 1];
      assert Extend(FirstOps(ops, n), ops[n]) == FirstOps(ops, n + 1);
      DecodeRest(data, at, ops, n + 1);
    }
  }

  ghost predicate PartStands(data: seq<byte>, at: seq<nat>, ops: seq<Op>, n: nat)
    requires |at| == |ops| + 1 && AllEncodable(ops) && n < |ops|
  {
    StandsAt(EncodeOp(ops[n]), data, at[n]) && at[n + 1] == at[n] + |EncodeOp(ops[n])|
  }

  lemma {:induction false} DecodeParts(data: seq<byte>, at: seq<nat>, ops: seq<Op>)
    requires Countable(ops) && |at| == |ops| + 1 && at[0] == 0 && at[|ops|] == |data|
    requires forall n :: 0 <= n < |ops| ==> PartStands(data, at, ops, n)
    ensures DecodeFrom(data, 0, Section([], 0)) == Ok(Section(ops, NewBefore(ops, |ops|)))
  {
    forall n | 0 <= n < |ops| ensures DecodesAt(data, at, ops, n) {
      assert PartStands(data, at, ops, n);
      StandsDecodesAt(data, at, ops, n);
    }
    DecodeRest(data, at, ops, 0);
    assert FirstOps(ops, 0) == Section([], 0);
  }

  lemma {:induction false} PartStandsAt(ops: seq<Op>, n: nat)
    requires AllEncodable(ops) && n < |ops|
    ensures PartStands(EncodeOps(ops), Offsets(ops), ops, n)
  {
    var parts, at := Parts(ops), Offsets(ops);
    assert parts[n] == EncodeOp(ops[n]);
    assert at[n] == |Joined(parts, n)| && at[n + 1] == |Joined(parts, n + 1)|;
    JoinedPart(parts, n, |ops|);
  }

  lemma {:induction false} DecodeFromEncoded(ops: seq<Op>)
    requires Countable(ops)
    ensures DecodeFrom(EncodeOps(ops), 0, Section([], 0)) == Ok(Section(ops, NewBefore(ops, |ops|)))
  {
    forall n | 0 <= n < |ops|
      ensures PartStands(EncodeOps(ops), Offsets(ops), ops, n)
    {
      PartStandsAt(ops, n);
    }
    DecodeParts(EncodeOps(ops), Offsets(ops), ops);
  }

  lemma {:induction false} OpsFitEncodable(ops: seq<Op>, sourceLength: int, newLength: int)
    requires OpsFit(ops, |ops|, sourceLength, newLength)
    ensures AllEncodable(ops)
  {
    forall i | 0 <= i < |ops| ensures Encodable(ops[i]) {
      assert OpFitsAt(ops, i, sourceLength, newLength);
    }
  }

  lemma {:induction false} CounterInRange(ops: seq<Op>, n: nat, sourceLength: int, newLength: int)
    requires OpsFit(ops, |ops|, sourceLength, newLength) && n <= |ops|
    ensures 0 <= NewBefore(ops, n) <= Start(ops, |ops|)
  {
    NewBeforeBounds(ops, n, sourceLength, newLength);
    StartMonotone(ops, n, |ops|, sourceLength, newLength);
  }

  // ----- what decoding accepts -----

  /** The counter is the new data so far, and so was every new-data offset, modulo 2^64. */
  ghost predicate Counted(section: Section) {
    && section.newPosition == WrapInt64(NewBefore(section.ops, |section.ops|))
    && forall i :: 0 <= i < |section.ops| ==> CountedAt(section.ops, i)
  }

  ghost predicate CountedAt(ops: seq<Op>, i: nat)
    requires i < |ops|
  {
    ops[i].kind == OP_NEW ==> ops[i].offset == WrapInt64(NewBefore(ops, i))
  }

  lemma {:induction false} ExtendKeepsCounted(section: Section, op: Op)
    requires Counted(section) && (op.kind == OP_NEW ==> op.offset == section.newPosition)
    ensures Counted(Extend(section, op))
  {
    var ops := section.ops;
    CountsSnoc(ops, op);
    WrapTwice(NewBefore(ops, |ops|), op.length);
    forall i | 0 <= i < |ops + [op]| ensures CountedAt(ops + [op], i) {
      if i < |ops| {
        assert CountedAt(ops, i);
        assert (ops + [op])[i] == ops[i];
      }
    }
  }

  lemma {:induction false} DecodeFromIsCounted(data: seq<byte>, position: nat, section: Section)
    requires position <= |data| && Counted(section) && DecodeFrom(data, position, section).Ok?
    ensures Counted(DecodeFrom(data, position, section).value)
    decreases |data| - position
  {
    if position < |data| {
      var step := DecodeOp(data, position, section.newPosition).value;
      ExtendKeepsCounted(section, step.op);
      DecodeFromIsCounted(data, step.next, Extend(section, step.op));
    }
  }

  /** Whatever bytes it is given, decoding accepts only ops that fit, that use the new data in
      order and that use it up. In particular no accepted counter has wrapped around. */
  lemma {:induction false} DecodedIsInOrder(data: seq<byte>, sourceLength: int, targetLength: int64, newLength: nat)
    requires Decoded(data, sourceLength, targetLength, newLength).Some?
    ensures var ops := Decoded(data, sourceLength, targetLength, newLength).value;
            && OpsFit(ops, |ops|, sourceLength, newLength) && Start(ops, |ops|) == targetLength
            && InOrder(ops, newLength)
  {
    DecodeFromIsCounted(data, 0, Section([], 0));
    var ops := Decoded(data, sourceLength, targetLength, newLength).value;
    CounterInRange(ops, |ops|, sourceLength, newLength);
    forall i | 0 <= i < |ops| ensures SequentialAt(ops, i) {
      assert CountedAt(ops, i);
      CounterInRange(ops, i, sourceLength, newLength);
    }
  }

  /** The instructions of a valid window decode to its ops exactly when it uses its new data in
      order and uses it up. */
  lemma {:induction false} InstructionsRoundTrip(w: Window)
    requires Valid(w)
    ensures AllEncodable(w.ops)
    ensures Decoded(EncodeOps(w.ops), w.sourceLength, w.targetLength, |w.newData|) == Some(w.ops)
            <==> InOrder(w.ops, |w.newData|)
  {
    var ops := w.ops;
    OpsFitEncodable(ops, w.sourceLength, |w.newData|);
    if InOrder(ops, |w.newData|) {
      forall i | 0 <= i <= |ops| ensures 0 <= NewBefore(ops, i) <= MAX_INT64 {
        CounterInRange(ops, i, w.sourceLength, |w.newData|);
      }
      DecodeFromEncoded(ops);
    } else if Decoded(EncodeOps(ops), w.sourceLength, w.targetLength, |w.newData|).Some? {
      DecodedIsInOrder(EncodeOps(ops), w.sourceLength, w.targetLength, |w.newData|);
    }
  }
}
