/** Text delta windows (delta/window.go): validation and application. */
module Window {
  import opened Common

  type OpKind = byte

  const OP_SOURCE: OpKind := 0
  const OP_TARGET: OpKind := 1
  const OP_NEW: OpKind := 2

  datatype Op = Op(kind: OpKind, offset: int64, length: int64)

  datatype Window = Window(
    sourceOffset: int64,
    sourceLength: int64,
    targetLength: int64,
    ops: seq<Op>,
    newData: seq<byte>)

  datatype OpFault = BadOffsetOrLength | ExceedsTarget | ExceedsSource | BeyondProduced | ExceedsNewData | UnknownKind

  /** Why a window is refused; an op fault carries the op's index. */
  datatype InvalidOps =
    | NegativeWindow
    | BadOp(index: nat, fault: OpFault)
    | WrongTotal
    | WrongSourceView

  // ----- validity -----

  /** Where op n starts writing in the target view: the bytes that the ops before it produce. */
  function Start(ops: seq<Op>, n: nat): int
    requires n <= |ops|
  {
    if n == 0 then 0 else Start(ops, n - 1) + ops[n - 1].length
  }

  /** One op reads only bytes that exist and produces a byte at least. */
  predicate OpFits(op: Op, sourceLength: int, produced: int, newLength: int) {
    && op.offset >= 0 && op.length > 0
    && op.kind <= OP_NEW
    && (op.kind == OP_SOURCE ==> op.offset + op.length <= sourceLength)
    && (op.kind == OP_TARGET ==> op.offset < produced)
    && (op.kind == OP_NEW ==> op.offset + op.length <= newLength)
  }

  predicate OpFitsAt(ops: seq<Op>, i: nat, sourceLength: int, newLength: int)
    requires i < |ops|
  {
    OpFits(ops[i], sourceLength, Start(ops, i), newLength)
  }

  /** The first n ops fit. */
  ghost predicate OpsFit(ops: seq<Op>, n: nat, sourceLength: int, newLength: int) {
    n <= |ops| && forall i :: 0 <= i < n ==> OpFitsAt(ops, i, sourceLength, newLength)
  }

  ghost predicate Valid(w: Window) {
    && w.sourceOffset >= 0 && w.sourceLength >= 0 && w.targetLength >= 0
    && OpsFit(w.ops, |w.ops|, w.sourceLength, |w.newData|)
    && Start(w.ops, |w.ops|) == w.targetLength
  }

  /** Byte j of op i is read from the source view, from what has been produced by then, or from the
      new data. */
  predicate ReadsExisting(w: Window, i: int, j: int)
    requires 0 <= i < |w.ops|
  {
    var at := w.ops[i].offset + j;
    if w.ops[i].kind == 0 then 0 <= at < w.sourceLength
    else if w.ops[i].kind == 1 then 0 <= at < Start(w.ops, i) + j
    else if w.ops[i].kind == 2 then 0 <= at < |w.newData|
    else false
  }

  /** A window is valid exactly when no size is negative, no op is empty, every byte that an op reads
      exists by the time it is read, and the ops produce as many bytes as the target has. */
  lemma {:induction false} ValidExactly(w: Window)
    ensures Valid(w) <==>
            && w.sourceOffset >= 0 && w.sourceLength >= 0 && w.targetLength >= 0
            && (forall i :: 0 <= i < |w.ops| ==> w.ops[i].length > 0)
            && (forall i, j :: 0 <= i < |w.ops| && 0 <= j < w.ops[i].length ==> ReadsExisting(w, i, j))
            && Start(w.ops, |w.ops|) == w.targetLength
  {
    forall i | 0 <= i < |w.ops|
      ensures OpFitsAt(w.ops, i, w.sourceLength, |w.newData|) <==>
              w.ops[i].length > 0 && forall j :: 0 <= j < w.ops[i].length ==> ReadsExisting(w, i, j)
    {
      if w.ops[i].length > 0 {
        assert ReadsExisting(w, i, 0) && ReadsExisting(w, i, w.ops[i].length - 1) ==>
               OpFitsAt(w.ops, i, w.sourceLength, |w.newData|);
      }
    }
  }

  lemma {:induction false} StartMonotone(ops: seq<Op>, i: nat, j: nat, sourceLength: int, newLength: int)
    requires i <= j && OpsFit(ops, j, sourceLength, newLength)
    ensures Start(ops, i) + (j - i) <= Start(ops, j)
    decreases j
  {
    if i < j {
      StartMonotone(ops, i, j - 1, sourceLength, newLength);
      assert OpFitsAt(ops, j - 1, sourceLength, newLength);
    }
  }

  /** The checks on one op. */
  method CheckOp(operation: Op, sourceLength: int64, targetLength: int64, newLength: nat, produced: int)
    returns (fault: Option<OpFault>)
    requires 0 <= produced <= targetLength
    ensures fault.None? <==>
              OpFits(operation, sourceLength, produced, newLength) && produced + operation.length <= targetLength
  {
    if operation.offset < 0 || operation.length <= 0 {
      return Some(BadOffsetOrLength);
    }
    if operation.length > targetLength - produced {
      return Some(ExceedsTarget);
    }
    if operation.kind == OP_SOURCE {
      if operation.offset > sourceLength - operation.length {
        return Some(ExceedsSource);
      }
    } else if operation.kind == OP_TARGET {
      if operation.offset >= produced {
        return Some(BeyondProduced);
      }
    } else if operation.kind == OP_NEW {
      if operation.offset > newLength - operation.length {
        return Some(ExceedsNewData);
      }
    } else {
      return Some(UnknownKind);
    }
    return None;
  }

  lemma {:induction false} StartWithinTarget(w: Window, i: nat)
    requires i <= |w.ops|
    ensures Valid(w) ==> Start(w.ops, i) <= w.targetLength
  {
    if Valid(w) {
      StartMonotone(w.ops, i, |w.ops|, w.sourceLength, |w.newData|);
    }
  }

  /** Window.Validate: no error exactly on the valid windows. An op error names the first op
      that does not fit, or that takes the output past the target length. */
  method Validate(w: Window) returns (error: Option<InvalidOps>)
    ensures error.None? <==> Valid(w)
    ensures error == Some(NegativeWindow) <==> w.sourceOffset < 0 || w.sourceLength < 0 || w.targetLength < 0
    ensures error == Some(WrongTotal) ==> OpsFit(w.ops, |w.ops|, w.sourceLength, |w.newData|)
    ensures error != Some(WrongSourceView)
    ensures error.Some? && error.value.BadOp? ==>
              var i := error.value.index;
              && i < |w.ops| && OpsFit(w.ops, i, w.sourceLength, |w.newData|)
              && (Start(w.ops, i + 1) > w.targetLength || !OpFitsAt(w.ops, i, w.sourceLength, |w.newData|))
  {
    if w.sourceOffset < 0 || w.sourceLength < 0 || w.targetLength < 0 {
      return Some(NegativeWindow);
    }
    var produced := 0;
    for index := 0 to |w.ops|
      invariant 0 <= produced == Start(w.ops, index) <= w.targetLength
      invariant OpsFit(w.ops, index, w.sourceLength, |w.newData|)
    {
      var operation := w.ops[index];
      assert Valid(w) ==> OpFitsAt(w.ops, index, w.sourceLength, |w.newData|);
      var fault := CheckOp(operation, w.sourceLength, w.targetLength, |w.newData|, produced);
      if fault.Some? {
        StartWithinTarget(w, index + 1);
        return Some(BadOp(index, fault.value));
      }
      produced := produced + operation.length;
    }
    if produced != w.targetLength {
      return Some(WrongTotal);
    }
    return None;
  }

  // ----- new data in order -----

  /** Bytes of new data that the first n ops consume. */
  function NewBefore(ops: seq<Op>, n: nat): int
    requires n <= |ops|
  {
    if n == 0 then 0 else NewBefore(ops, n - 1) + (if ops[n - 1].kind == OP_NEW then ops[n - 1].length else 0)
  }

  predicate SequentialAt(ops: seq<Op>, i: nat)
    requires i < |ops|
  {
    ops[i].kind == OP_NEW ==> ops[i].offset == NewBefore(ops, i)
  }

  /** New data is used in order, each op starting where the one before it stopped, and used up. */
  ghost predicate InOrder(ops: seq<Op>, newLength: nat) {
    && NewBefore(ops, |ops|) == newLength
    && forall i :: 0 <= i < |ops| ==> SequentialAt(ops, i)
  }

  lemma {:induction false} NewBeforeBounds(ops: seq<Op>, n: nat, sourceLength: int, newLength: int)
    requires OpsFit(ops, n, sourceLength, newLength)
    ensures 0 <= NewBefore(ops, n) <= Start(ops, n)
  {
    if n > 0 {
      NewBeforeBounds(ops, n - 1, sourceLength, newLength);
      assert OpFitsAt(ops, n - 1, sourceLength, newLength);
    }
  }

  /** The counts look at the first n ops only. */
  lemma {:induction false} CountsAgree(a: seq<Op>, b: seq<Op>, n: nat)
    requires n <= |a| && n <= |b|
    requires forall i :: 0 <= i < n ==> a[i] == b[i]
    ensures Start(a, n) == Start(b, n) && NewBefore(a, n) == NewBefore(b, n)
  {
    if n > 0 { CountsAgree(a, b, n - 1); }
  }

  lemma {:induction false} CountsSnoc(ops: seq<Op>, op: Op)
    ensures forall i :: 0 <= i <= |ops| ==>
              Start(ops + [op], i) == Start(ops, i) && NewBefore(ops + [op], i) == NewBefore(ops, i)
    ensures Start(ops + [op], |ops| + 1) == Start(ops, |ops|) + op.length
    ensures NewBefore(ops + [op], |ops| + 1) == NewBefore(ops, |ops|) + (if op.kind == OP_NEW then op.length else 0)
  {
    forall i | 0 <= i <= |ops|
      ensures Start(ops + [op], i) == Start(ops, i) && NewBefore(ops + [op], i) == NewBefore(ops, i)
    {
      CountsAgree(ops + [op], ops, i);
    }
  }

  // ----- application -----

  /** Append, byte by byte, `length` bytes read from `offset` on in the growing view itself. */
  function CopyTarget(view: seq<byte>, offset: nat, length: nat): (r: seq<byte>)
    requires length > 0 ==> offset < |view|
    ensures |r| == |view| + length
    decreases length
  {
    if length == 0 then view else CopyTarget(view + [view[offset]], offset + 1, length - 1)
  }

  /** The target view after one more op. */
  function Step(source: seq<byte>, newData: seq<byte>, view: seq<byte>, op: Op): (r: seq<byte>)
    requires OpFits(op, |source|, |view|, |newData|)
    ensures |r| == |view| + op.length
  {
    if op.kind == OP_SOURCE then view + source[op.offset..op.offset + op.length]
    else if op.kind == OP_TARGET then CopyTarget(view, op.offset, op.length)
    else view + newData[op.offset..op.offset + op.length]
  }

  /** The target view that the first n ops build. */
  function Expand(source: seq<byte>, newData: seq<byte>, ops: seq<Op>, n: nat): (r: seq<byte>)
    requires OpsFit(ops, n, |source|, |newData|)
    ensures |r| == Start(ops, n)
  {
    if n == 0 then []
    else
      assert OpFitsAt(ops, n - 1, |source|, |newData|);
      Step(source, newData, Expand(source, newData, ops, n - 1), ops[n - 1])
  }

  /** The inner loop for a copy out of the view under construction. */
  method AppendFromTarget(view: seq<byte>, offset: nat, length: nat) returns (target: seq<byte>)
    requires offset < |view|
    ensures target == CopyTarget(view, offset, length)
  {
    target := view;
    for index := 0 to length
      invariant |target| == |view| + index
      invariant CopyTarget(target, offset + index, length - index) == CopyTarget(view, offset, length)
    {
      target := target + [target[offset + index]];
    }
  }

  /** The switch on an op's kind. */
  method ApplyOp(source: seq<byte>, newData: seq<byte>, view: seq<byte>, operation: Op) returns (target: seq<byte>)
    requires OpFits(operation, |source|, |view|, |newData|)
    ensures target == Step(source, newData, view, operation)
  {
    if operation.kind == OP_SOURCE {
      target := view + source[operation.offset..operation.offset + operation.length];
    } else if operation.kind == OP_TARGET {
      target := AppendFromTarget(view, operation.offset, operation.length);
    } else {
      target := view + newData[operation.offset..operation.offset + operation.length];
    }
  }

  /** ApplyWindow. Validate alone keeps every index in bounds. */
  method ApplyWindow(source: seq<byte>, w: Window) returns (r: Result<seq<byte>, InvalidOps>)
    ensures r.Ok? <==> Valid(w) && |source| == w.sourceLength
    ensures r.Ok? ==> |r.value| == w.targetLength && r.value == Expand(source, w.newData, w.ops, |w.ops|)
    ensures Valid(w) && |source| != w.sourceLength ==> r == Err(WrongSourceView)
  {
    var error := Validate(w);
    if error.Some? {
      return Err(error.value);
    }
    if |source| != w.sourceLength {
      return Err(WrongSourceView);
    }
    var target: seq<byte> := [];
    for i := 0 to |w.ops|
      invariant target == Expand(source, w.newData, w.ops, i)
    {
      assert OpFitsAt(w.ops, i, |source|, |w.newData|);
      target := ApplyOp(source, w.newData, target, w.ops[i]);
    }
    return Ok(target);
  }

  /** More ops behind the first n, or more new data behind what they use, changes nothing. */
  lemma {:induction false} ExpandAgrees(source: seq<byte>, newData: seq<byte>, more: seq<byte>, a: seq<Op>, b: seq<Op>, n: nat)
    requires OpsFit(a, n, |source|, |newData|) && n <= |b|
    requires forall i :: 0 <= i < n ==> a[i] == b[i]
    ensures OpsFit(b, n, |source|, |newData + more|)
    ensures Expand(source, newData + more, b, n) == Expand(source, newData, a, n)
  {
    if n > 0 {
      ExpandAgrees(source, newData, more, a, b, n - 1);
      CountsAgree(a, b, n - 1);
      var op := a[n - 1];
      assert OpFitsAt(a, n - 1, |source|, |newData|);
      if op.kind == OP_NEW {
        assert (newData + more)[op.offset..op.offset + op.length] == newData[op.offset..op.offset + op.length];
      }
    }
  }

  // ----- what the target view means -----

  /** Each byte that an op writes, found in the finished target view. */
  ghost predicate OpDenotes(source: seq<byte>, newData: seq<byte>, op: Op, start: nat, target: seq<byte>)
    requires OpFits(op, |source|, start, |newData|)
    requires start + op.length <= |target|
  {
    forall k :: start <= k < start + op.length ==>
      target[k] ==
        if op.kind == OP_SOURCE then source[op.offset + (k - start)]
        else if op.kind == OP_TARGET then target[op.offset + (k - start)]
        else newData[op.offset + (k - start)]
  }

  ghost predicate OpHolds(source: seq<byte>, newData: seq<byte>, ops: seq<Op>, i: nat, target: seq<byte>)
    requires i < |ops|
  {
    && OpFitsAt(ops, i, |source|, |newData|)
    && 0 <= Start(ops, i) && Start(ops, i) + ops[i].length <= |target|
    && OpDenotes(source, newData, ops[i], Start(ops, i), target)
  }

  /** target satisfies the copying equations of the first n ops at once, with no reference to
      the order in which they run. */
  ghost predicate Denotes(source: seq<byte>, newData: seq<byte>, ops: seq<Op>, n: nat, target: seq<byte>)
    requires n <= |ops|
  {
    && |target| == Start(ops, n)
    && forall i :: 0 <= i < n ==> OpHolds(source, newData, ops, i, target)
  }

  lemma {:induction false} CopyTargetBytes(view: seq<byte>, offset: nat, length: nat)
    requires offset < |view|
    ensures var r := CopyTarget(view, offset, length);
            && (forall k :: 0 <= k < |view| ==> r[k] == view[k])
            && (forall k :: |view| <= k < |view| + length ==> r[k] == r[k - (|view| - offset)])
    decreases length
  {
    if length > 0 {
      CopyTargetBytes(view + [view[offset]], offset + 1, length - 1);
    }
  }

  /** An overlapping copy repeats the bytes between its offset and the end of the view. */
  lemma {:induction false} CopyTargetPeriodic(view: seq<byte>, offset: nat, length: nat, j: nat)
    requires offset < |view| && j < length
    ensures 0 <= j % (|view| - offset) < |view| - offset
    ensures CopyTarget(view, offset, length)[|view| + j] == view[offset + j % (|view| - offset)]
    decreases j
  {
    CopyTargetBytes(view, offset, length);
    var period := |view| - offset;
    if j >= period {
      CopyTargetPeriodic(view, offset, length, j - period);
      var before := j - period;
      ModUnique(j, period, before / period + 1, before % period);
    } else {
      ModUnique(j, period, 0, j);
    }
  }

  /** Writing one more op keeps what the view already holds and meets the op's equation. */
  lemma {:induction false} StepDenotes(source: seq<byte>, newData: seq<byte>, view: seq<byte>, op: Op)
    requires OpFits(op, |source|, |view|, |newData|)
    ensures view <= Step(source, newData, view, op)
    ensures OpDenotes(source, newData, op, |view|, Step(source, newData, view, op))
  {
    if op.kind == OP_TARGET {
      CopyTargetBytes(view, op.offset, op.length);
      assert view == CopyTarget(view, op.offset, op.length)[..|view|];
    }
  }

  /** An op's equation survives any extension of the view. */
  lemma {:induction false} OpHoldsExtends(source: seq<byte>, newData: seq<byte>, ops: seq<Op>, i: nat, view: seq<byte>, target: seq<byte>)
    requires i < |ops| && view <= target
    requires OpHolds(source, newData, ops, i, view)
    ensures OpHolds(source, newData, ops, i, target)
  {
  }

  lemma {:induction false} ExpandDenotes(source: seq<byte>, newData: seq<byte>, ops: seq<Op>, n: nat)
    requires OpsFit(ops, n, |source|, |newData|)
    ensures Denotes(source, newData, ops, n, Expand(source, newData, ops, n))
  {
    if n > 0 {
      ExpandDenotes(source, newData, ops, n - 1);
      var view, target := Expand(source, newData, ops, n - 1), Expand(source, newData, ops, n);
      assert OpFitsAt(ops, n - 1, |source|, |newData|);
      StepDenotes(source, newData, view, ops[n - 1]);
      forall i | 0 <= i < n
        ensures OpHolds(source, newData, ops, i, target)
      {
        if i < n - 1 {
          OpHoldsExtends(source, newData, ops, i, view, target);
        }
      }
    }
  }

  /** The copying equations have one solution: whatever satisfies them is what ApplyWindow
      returns. */
  lemma {:induction false} DenotesUnique(source: seq<byte>, newData: seq<byte>, ops: seq<Op>, target: seq<byte>)
    requires OpsFit(ops, |ops|, |source|, |newData|)
    ensures Denotes(source, newData, ops, |ops|, target) <==> target == Expand(source, newData, ops, |ops|)
  {
    var expanded := Expand(source, newData, ops, |ops|);
    ExpandDenotes(source, newData, ops, |ops|);
    if Denotes(source, newData, ops, |ops|, target) {
      forall k | 0 <= k < |target|
        ensures target[k] == expanded[k]
      {
        AgreeAt(source, newData, ops, target, expanded, k);
      }
    }
  }

  lemma {:induction false} AgreeAt(source: seq<byte>, newData: seq<byte>, ops: seq<Op>, a: seq<byte>, b: seq<byte>, k: nat)
    requires Denotes(source, newData, ops, |ops|, a) && Denotes(source, newData, ops, |ops|, b)
    requires k < |a|
    ensures a[k] == b[k]
    decreases k
  {
    var i := FindOp(ops, |ops|, k);
    var op, start := ops[i], Start(ops, i);
    assert OpHolds(source, newData, ops, i, a) && OpHolds(source, newData, ops, i, b);
    if op.kind == OP_TARGET {
      AgreeAt(source, newData, ops, a, b, op.offset + (k - start));
      assert a[k] == a[op.offset + (k - start)];
      assert b[k] == b[op.offset + (k - start)];
    } else if op.kind == OP_SOURCE {
      assert a[k] == source[op.offset + (k - start)];
      assert b[k] == source[op.offset + (k - start)];
    } else {
      assert a[k] == newData[op.offset + (k - start)];
      assert b[k] == newData[op.offset + (k - start)];
    }
  }

  /** The op that writes byte k of the target view. */
  lemma {:induction false} FindOp(ops: seq<Op>, n: nat, k: nat) returns (i: nat)
    requires n <= |ops| && k < Start(ops, n)
    ensures i < n && Start(ops, i) <= k < Start(ops, i) + ops[i].length
  {
    if k < Start(ops, n - 1) {
      i := FindOp(ops, n - 1, k);
    } else {
      i := n - 1;
    }
  }
}
