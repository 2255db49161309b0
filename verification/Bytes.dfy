/** Byte strings found inside byte strings. */
module Bytes {
  import opened Common

  ghost predicate StandsAt(part: seq<byte>, data: seq<byte>, position: nat) {
    position + |part| <= |data| && data[position..position + |part|] == part
  }

  lemma {:induction false} StandsAtAppend(part: seq<byte>, data: seq<byte>, more: seq<byte>, position: nat)
    requires StandsAt(part, data, position)
    ensures StandsAt(part, data + more, position)
  {
    assert (data + more)[position..position + |part|] == data[position..position + |part|];
  }

  lemma {:induction false} StandsAtPrepend(part: seq<byte>, before: seq<byte>, data: seq<byte>, position: nat)
    requires StandsAt(part, data, position)
    ensures StandsAt(part, before + data, |before| + position)
  {
    var from := |before| + position;
    assert (before + data)[from..from + |part|] == data[position..position + |part|];
  }

  lemma {:induction false} SliceByte(part: seq<byte>, data: seq<byte>, position: nat, i: nat)
    requires StandsAt(part, data, position) && i < |part|
    ensures position + i < |data| && data[position + i] == part[i]
  {
    assert data[position..position + |part|][i] == data[position + i];
  }

  lemma {:induction false} StandsWithin(part: seq<byte>, whole: seq<byte>, data: seq<byte>, position: nat, offset: nat)
    requires StandsAt(whole, data, position) && StandsAt(part, whole, offset)
    ensures StandsAt(part, data, position + offset)
  {
    forall i | 0 <= i < |part|
      ensures data[position + offset + i] == part[i]
    {
      SliceByte(whole, data, position, offset + i);
      SliceByte(part, whole, offset, i);
    }
    assert data[position + offset..position + offset + |part|] == part;
  }

  /** A concatenation stands somewhere exactly when its parts stand there side by side. */
  lemma {:induction false} StandsAtParts(a: seq<byte>, b: seq<byte>, data: seq<byte>, position: nat)
    ensures StandsAt(a + b, data, position) <==> StandsAt(a, data, position) && StandsAt(b, data, position + |a|)
  {
    if position + |a| + |b| <= |data| {
      var both := data[position..position + |a| + |b|];
      assert both[..|a|] == data[position..position + |a|];
      assert both[|a|..] == data[position + |a|..position + |a| + |b|];
      assert both == both[..|a|] + both[|a|..];
      assert both == a + b <==> both[..|a|] == a && both[|a|..] == b;
    }
  }

  /** The first n parts, one behind the other. */
  function Joined(parts: seq<seq<byte>>, n: nat): seq<byte>
    requires n <= |parts|
  {
    if n == 0 then [] else Joined(parts, n - 1) + parts[n - 1]
  }

  lemma {:induction false} JoinedPart(parts: seq<seq<byte>>, n: nat, m: nat)
    requires n < m <= |parts|
    ensures |Joined(parts, n + 1)| == |Joined(parts, n)| + |parts[n]|
    ensures StandsAt(parts[n], Joined(parts, m), |Joined(parts, n)|)
    decreases m
  {
    var shorter, last := Joined(parts, m - 1), parts[m - 1];
    if n < m - 1 {
      JoinedPart(parts, n, m - 1);
      StandsAtAppend(parts[n], shorter, last, |Joined(parts, n)|);
    } else {
      assert (shorter + last)[|shorter|..|shorter| + |last|] == last;
    }
  }

  /** Parts that each fit between two marks fit together below the last mark. */
  lemma {:induction false} JoinedAtMost(parts: seq<seq<byte>>, n: nat, marks: seq<int>)
    requires n <= |parts| && |marks| == |parts| + 1 && marks[0] == 0
    requires forall i :: 0 <= i < |parts| ==> |parts[i]| <= marks[i + 1] - marks[i]
    ensures |Joined(parts, n)| <= marks[n]
  {
    if n > 0 { JoinedAtMost(parts, n - 1, marks); }
  }

  lemma {:induction false} JoinedAgrees(a: seq<seq<byte>>, b: seq<seq<byte>>, n: nat)
    requires n <= |a| && n <= |b|
    requires forall i :: 0 <= i < n ==> a[i] == b[i]
    ensures Joined(a, n) == Joined(b, n)
  {
    if n > 0 { JoinedAgrees(a, b, n - 1); }
  }

  lemma {:induction false} JoinedSnoc(parts: seq<seq<byte>>, part: seq<byte>)
    ensures Joined(parts + [part], |parts| + 1) == Joined(parts, |parts|) + part
  {
    JoinedAgrees(parts + [part], parts, |parts|);
  }
}
