/** The greedy scan that turns a source and a target view into a window
    (delta/xdelta.go, buildWindow and appendLiteral). */
module Differ {
  import opened Common
  import opened Window
  import opened Xdelta

  // ----- what a window must do to stand for a target -----

  /** w carries source to target, with new data in order and used up. */
  ghost predicate Rebuilds(source: seq<byte>, target: seq<byte>, w: Window) {
    && w.sourceLength == |source| && w.targetLength == |target|
    && OpsFit(w.ops, |w.ops|, |source|, |w.newData|)
    && InOrder(w.ops, |w.newData|)
    && Expand(source, w.newData, w.ops, |w.ops|) == target
  }

  ghost predicate AllMissed(source: seq<byte>, target: seq<byte>, from: nat, to: int) {
    forall p :: from <= p < to ==> Missed(source, target, p)
  }

  /** One op of the scan at its place in the target: a best match, or bytes at which no
      candidate matched. The scan never copies from the target view. */
  ghost predicate GreedyOp(source: seq<byte>, target: seq<byte>, op: Op, start: int) {
    && start >= 0 && op.kind != OP_TARGET
    && (op.kind == OP_SOURCE ==> BestMatch(source, target, start, op.offset, op.length))
    && (op.kind == OP_NEW ==> AllMissed(source, target, start, start + op.length))
  }

  ghost predicate GreedyAt(source: seq<byte>, target: seq<byte>, ops: seq<Op>, i: nat)
    requires i < |ops|
  {
    GreedyOp(source, target, ops[i], Start(ops, i))
  }

  ghost predicate Greedy(source: seq<byte>, target: seq<byte>, ops: seq<Op>) {
    forall i :: 0 <= i < |ops| ==> GreedyAt(source, target, ops, i)
  }

  // ----- the scan -----

  /** The ops and new data collected so far build the first n bytes of the target. */
  ghost predicate Built(source: seq<byte>, target: seq<byte>, ops: seq<Op>, newData: seq<byte>, n: nat) {
    && n <= |target|
    && OpsFit(ops, |ops|, |source|, |newData|)
    && InOrder(ops, |newData|)
    && Expand(source, newData, ops, |ops|) == target[..n]
    && Greedy(source, target, ops)
  }

  lemma {:induction false} BuiltSnoc(source: seq<byte>, target: seq<byte>, ops: seq<Op>, newData: seq<byte>, more: seq<byte>, n: nat, op: Op)
    requires Built(source, target, ops, newData, n)
    requires 0 <= op.length && n + op.length <= |target|
    requires OpFits(op, |source|, n, |newData + more|) && GreedyOp(source, target, op, n)
    requires Step(source, newData + more, target[..n], op) == target[..n + op.length]
    requires op.kind == OP_NEW ==> op.offset == |newData| && op.length == |more|
    requires op.kind != OP_NEW ==> more == []
    ensures Built(source, target, ops + [op], newData + more, n + op.length)
  {
    var all := ops + [op];
    CountsSnoc(ops, op);
    ExpandAgrees(source, newData, more, ops, all, |ops|);
    forall i | 0 <= i < |all|
      ensures OpFitsAt(all, i, |source|, |newData + more|)
      ensures SequentialAt(all, i)
    {
      if i < |ops| {
        assert OpFitsAt(all, i, |source|, |newData + more|);
        assert SequentialAt(ops, i);
      }
    }
    GreedySnoc(source, target, ops, op);
  }

  lemma {:induction false} GreedySnoc(source: seq<byte>, target: seq<byte>, ops: seq<Op>, op: Op)
    requires Greedy(source, target, ops) && GreedyOp(source, target, op, Start(ops, |ops|))
    ensures Greedy(source, target, ops + [op])
  {
    CountsSnoc(ops, op);
    forall i | 0 <= i < |ops + [op]|
      ensures GreedyAt(source, target, ops + [op], i)
    {
      if i < |ops| {
        assert GreedyAt(source, target, ops, i);
        assert (ops + [op])[i] == ops[i];
      }
    }
  }

  lemma {:induction false} LiteralKeepsBuilt(source: seq<byte>, target: seq<byte>, ops: seq<Op>, newData: seq<byte>, n: nat, m: nat)
    requires Built(source, target, ops, newData, n) && n < m <= |target| <= MAX_INT64
    requires |newData| <= n
    requires AllMissed(source, target, n, m)
    ensures |newData| <= MAX_INT64
    ensures Built(source, target, ops + [Op(OP_NEW, |newData|, m - n)], newData + target[n..m], m)
  {
    assert target[..n] + target[n..m] == target[..m];
    assert (newData + target[n..m])[|newData|..|newData| + (m - n)] == target[n..m];
    BuiltSnoc(source, target, ops, newData, target[n..m], n, Op(OP_NEW, |newData|, m - n));
  }

  /** A best match copies what the target has there, up to where the two differ. */
  lemma {:induction false} BestMatchCopies(source: seq<byte>, target: seq<byte>, position: nat, offset: int, length: int)
    requires BestMatch(source, target, position, offset, length)
    ensures 0 <= offset && length >= BLOCK_SIZE && offset + length <= |source| && position + length <= |target|
    ensures source[offset..offset + length] == target[position..position + length]
    ensures offset + length == |source| || position + length == |target|
            || source[offset + length] != target[position + length]
  {
    CandidatesInRange(source, target, position);
    AgreementWithin(source, target, offset, position);
    AgreementMeans(source, target, offset, position, length);
    if offset + length < |source| && position + length < |target| {
      AgreementMeans(source, target, offset, position, length + 1);
      assert source[offset..offset + length + 1] == source[offset..offset + length] + [source[offset + length]];
      assert target[position..position + length + 1] == target[position..position + length] + [target[position + length]];
    }
  }

  lemma {:induction false} MatchInRange(source: seq<byte>, target: seq<byte>, position: nat, offset: int, length: int)
    requires BestMatch(source, target, position, offset, length)
    ensures 0 <= offset <= |source| && 0 < length <= |target| - position
  {
    BestMatchCopies(source, target, position, offset, length);
  }

  lemma {:induction false} CopyKeepsBuilt(source: seq<byte>, target: seq<byte>, ops: seq<Op>, newData: seq<byte>, n: nat, offset: int64, length: int64)
    requires Built(source, target, ops, newData, n)
    requires BestMatch(source, target, n, offset, length)
    ensures n + length <= |target|
    ensures Built(source, target, ops + [Op(OP_SOURCE, offset, length)], newData, n + length)
  {
    BestMatchCopies(source, target, n, offset, length);
    assert target[..n] + target[n..n + length] == target[..n + length];
    assert newData + [] == newData;
    BuiltSnoc(source, target, ops, newData, [], n, Op(OP_SOURCE, offset, length));
  }

  /** The window under construction; appendLiteral updates it through a pointer. */
  class WindowBuilder {
    var ops: seq<Op>
    var newData: seq<byte>

    constructor ()
      ensures ops == [] && newData == []
    {
      ops := [];
      newData := [];
    }

    ghost predicate Builds(source: seq<byte>, target: seq<byte>, n: nat)
      reads this
    {
      |newData| <= n && Built(source, target, ops, newData, n)
    }

    method AppendLiteral(literal: seq<byte>)
      requires |newData| <= MAX_INT64 && |literal| <= MAX_INT64
      modifies this
      ensures literal == [] ==> ops == old(ops) && newData == old(newData)
      ensures literal != [] ==> newData == old(newData) + literal
                                && ops == old(ops) + [Op(OP_NEW, |old(newData)|, |literal|)]
    {
      if |literal| == 0 {
        return;
      }
      var offset := |newData|;
      newData := newData + literal;
      ops := ops + [Op(OP_NEW, offset, |literal|)];
    }
  }

  /** The literal that ends where a match, or the target, begins or ends. */
  method FlushLiteral(window: WindowBuilder, ghost source: seq<byte>, target: seq<byte>, literalStart: nat, position: nat)
    requires literalStart <= position <= |target| <= MAX_INT64
    requires window.Builds(source, target, literalStart)
    requires AllMissed(source, target, literalStart, position)
    modifies window
    ensures window.Builds(source, target, position)
  {
    if literalStart < position {
      LiteralKeepsBuilt(source, target, window.ops, window.newData, literalStart, position);
    }
    window.AppendLiteral(target[literalStart..position]);
  }

  /** The two appends that a match causes. */
  method TakeMatch(window: WindowBuilder, ghost source: seq<byte>, target: seq<byte>,
                   literalStart: nat, position: nat, matchOffset: int64, matchLength: int64)
    requires literalStart <= position <= |target| <= MAX_INT64
    requires window.Builds(source, target, literalStart)
    requires AllMissed(source, target, literalStart, position)
    requires BestMatch(source, target, position, matchOffset, matchLength)
    modifies window
    ensures 0 < matchLength && window.Builds(source, target, position + matchLength)
  {
    FlushLiteral(window, source, target, literalStart, position);
    BestMatchCopies(source, target, position, matchOffset, matchLength);
    CopyKeepsBuilt(source, target, window.ops, window.newData, position, matchOffset, matchLength);
    window.ops := window.ops + [Op(OP_SOURCE, matchOffset, matchLength)];
  }

  /** buildWindow. The bounds on the lengths are those of any Go slice. */
  method BuildWindow(source: seq<byte>, target: seq<byte>, sourceOffset: int64) returns (w: Window)
    requires |source| <= MAX_INT64 && |target| <= MAX_INT64
    ensures w.sourceOffset == sourceOffset
    ensures Rebuilds(source, target, w)
    ensures Greedy(source, target, w.ops)
    ensures sourceOffset >= 0 ==> Valid(w)
  {
    var index := BuildSourceIndex(source);
    var window := new WindowBuilder();
    var literalStart, position := 0, 0;
    NothingBuilt(source, target);
    while position < |target|
      invariant 0 <= literalStart <= position <= |target|
      invariant window.Builds(source, target, literalStart)
      invariant AllMissed(source, target, literalStart, position)
    {
      var matchOffset, matchLength := FindMatch(source, target, position, index);
      if matchLength == 0 {
        position := position + 1;
        continue;
      }
      MatchInRange(source, target, position, matchOffset, matchLength);
      TakeMatch(window, source, target, literalStart, position, matchOffset, matchLength);
      position := position + matchLength;
      literalStart := position;
    }
    FlushLiteral(window, source, target, literalStart, |target|);
    w := Window(sourceOffset, |source|, |target|, window.ops, window.newData);
    BuiltIsRebuilt(source, target, w);
  }

  lemma {:induction false} NothingBuilt(source: seq<byte>, target: seq<byte>)
    ensures Built(source, target, [], [], 0)
  {
  }

  lemma {:induction false} BuiltIsRebuilt(source: seq<byte>, target: seq<byte>, w: Window)
    requires Built(source, target, w.ops, w.newData, |target|)
    requires w.sourceLength == |source| && w.targetLength == |target|
    ensures Rebuilds(source, target, w) && Greedy(source, target, w.ops)
    ensures w.sourceOffset >= 0 ==> Valid(w)
  {
    assert target[..|target|] == target;
  }

  // ----- what the greedy scan finds -----

  /** Some block of the source has more than 64 positions with its hash. */
  ghost predicate Crowded(source: seq<byte>, hash: uint32) {
    |Bucket(source, hash, BlockCount(source))| > MAX_CANDIDATES
  }

  lemma {:induction false} MissedMeans(source: seq<byte>, target: seq<byte>, p: nat, c: nat)
    requires p + BLOCK_SIZE <= |target| && c + BLOCK_SIZE <= |source|
    requires Missed(source, target, p) && Block(source, c) == Block(target, p)
    ensures c !in Candidates(source, target, p)
  {
    var candidates, reaches := Candidates(source, target, p), Reaches(source, target, p);
    AgreementMeans(source, target, c, p, BLOCK_SIZE);
    forall j | 0 <= j < |candidates| ensures candidates[j] != c {
      assert reaches[j] < BLOCK_SIZE;
    }
  }

  /** A literal position has no equal block anywhere in the source, unless the positions with
      its hash are more than the scan looks at; then none of the 64 lowest is equal. */
  lemma {:induction false} LiteralsAreNew(source: seq<byte>, target: seq<byte>, w: Window, i: nat, p: nat, c: nat)
    requires Rebuilds(source, target, w) && Greedy(source, target, w.ops)
    requires i < |w.ops| && w.ops[i].kind == OP_NEW
    requires Start(w.ops, i) <= p < Start(w.ops, i) + w.ops[i].length
    requires p + 64 <= |target| && c + 64 <= |source|
    ensures source[c..c + 64] == target[p..p + 64] ==>
              && |Bucket(source, Hash(target[p..p + 64]), BlockCount(source))| > 64
              && c !in Bucket(source, Hash(target[p..p + 64]), BlockCount(source))[..64]
  {
    assert GreedyAt(source, target, w.ops, i);
    assert Missed(source, target, p);
    if Block(source, c) == Block(target, p) {
      MissedMeans(source, target, p, c);
      BucketExact(source, Hash(Block(target, p)), BlockCount(source));
    }
  }

  /** Every copy is at least a block long and cannot be extended to the right. */
  lemma {:induction false} CopiesAreLongAndMaximal(source: seq<byte>, target: seq<byte>, w: Window, i: nat)
    requires Rebuilds(source, target, w) && Greedy(source, target, w.ops)
    requires i < |w.ops| && w.ops[i].kind != OP_NEW
    ensures var (op, p) := (w.ops[i], Start(w.ops, i));
            && op.kind == OP_SOURCE && op.length >= 64
            && 0 <= op.offset && op.offset + op.length <= |source| && 0 <= p && p + op.length <= |target|
            && source[op.offset..op.offset + op.length] == target[p..p + op.length]
            && (op.offset + op.length == |source| || p + op.length == |target|
                || source[op.offset + op.length] != target[p + op.length])
  {
    assert GreedyAt(source, target, w.ops, i);
    assert OpFitsAt(w.ops, i, |source|, |w.newData|);
    BestMatchCopies(source, target, Start(w.ops, i), w.ops[i].offset, w.ops[i].length);
  }
}
