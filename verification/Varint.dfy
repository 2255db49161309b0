/** svndiff integers (delta/varint.go): base-128 digits, most significant first, with the
    high bit set on every byte but the last. */
module Varint {
  import opened Common
  import opened Bytes

  const MAX_VARINT_LENGTH := 10

  /** What a reader makes of the bytes at its cursor; `next` is where it leaves the cursor. */
  datatype Outcome =
    | Value(value: uint64, next: nat)
    | Eof(next: nat)
    | Overflow(next: nat)

  // ----- encoding -----

  function HighDigits(v: nat): seq<byte> {
    if v == 0 then [] else HighDigits(v / 128) + [v % 128 + 128]
  }

  function Encode(v: nat): seq<byte> {
    HighDigits(v / 128) + [v % 128]
  }

  function Pow128(n: nat): nat {
    if n == 0 then 1 else 128 * Pow128(n - 1)
  }

  lemma {:induction false} HighDigitsLength(v: nat, n: nat)
    ensures |HighDigits(v)| <= n <==> v < Pow128(n)
  {
    if v == 0 {
      Pow128Positive(n);
    } else if n > 0 {
      HighDigitsLength(v / 128, n - 1);
    }
  }

  lemma {:induction false} Pow128Positive(n: nat)
    ensures Pow128(n) >= 1
  {
    if n > 0 { Pow128Positive(n - 1); }
  }

  /** The encoding takes at most n bytes exactly when v has at most n base-128 digits. */
  lemma {:induction false} EncodeLength(v: nat, n: nat)
    requires n > 0
    ensures |Encode(v)| <= n <==> v < Pow128(n)
  {
    HighDigitsLength(v / 128, n - 1);
  }

  lemma {:induction false} EncodeLengthUint64(v: uint64)
    ensures 1 <= |Encode(v)| <= MAX_VARINT_LENGTH
  {
    assert Pow128(10) >= TWO_TO_THE_64 by {
      assert Pow128(2) == 16384;
      assert Pow128(4) == 268435456;
      assert Pow128(6) == 4398046511104;
      assert Pow128(8) == 72057594037927936;
    }
    EncodeLength(v, 10);
  }

  method AppendVarint(destination: seq<byte>, value: uint64) returns (r: seq<byte>)
    ensures r == destination + Encode(value)
  {
    EncodeLengthUint64(value);
    var encoded := new byte[10](_ => 0);
    var position := 9;
    encoded[position] := value % 128;
    var rest := value / 128;
    while rest != 0
      invariant 0 <= position <= 9
      invariant 0 <= rest < TWO_TO_THE_64
      invariant Encode(value) == HighDigits(rest) + encoded[position..]
    {
      ghost var before := encoded[position..];
      position := position - 1;
      encoded[position] := rest % 128 + 128;
      assert encoded[position..] == [rest % 128 + 128] + before;
      rest := rest / 128;
    }
    r := destination + encoded[position..];
  }

  // ----- decoding -----

  /** The reading loop from one iteration on, after `count` bytes that made `acc`. */
  function ConsumeFrom(data: seq<byte>, position: nat, count: nat, acc: uint64): (r: Outcome)
    requires position <= |data|
    requires count <= MAX_VARINT_LENGTH
    ensures position <= r.next <= |data|
    ensures r.Value? ==> position < r.next
    decreases |data| - position
  {
    if count == MAX_VARINT_LENGTH then Overflow(position)
    else if position == |data| then Eof(position)
    else if acc > (TWO_TO_THE_64 - 1) / 128 then Overflow(position + 1)
    else
      var value := acc * 128 + data[position] % 128;
      if data[position] < 128 then Value(value, position + 1)
      else ConsumeFrom(data, position + 1, count + 1, value)
  }

  function Consume(data: seq<byte>, position: nat): (r: Outcome)
    requires position <= |data|
    ensures position <= r.next <= |data|
    ensures r.Value? ==> position < r.next
  {
    ConsumeFrom(data, position, 0, 0)
  }

  /** consumeVarint: over a slice, with the position passed by pointer. */
  method ConsumeVarint(data: seq<byte>, position: nat) returns (r: Outcome)
    requires position <= |data|
    ensures r == Consume(data, position)
  {
    var value: uint64 := 0;
    var at := position;
    for count := 0 to MAX_VARINT_LENGTH
      invariant position <= at <= |data|
      invariant Consume(data, position) == ConsumeFrom(data, at, count, value)
    {
      if at >= |data| {
        return Eof(at);
      }
      var current := data[at];
      at := at + 1;
      if value > (TWO_TO_THE_64 - 1) / 128 {
        return Overflow(at);
      }
      value := value * 128 + current % 128;
      if current < 128 {
        return Value(value, at);
      }
    }
    return Overflow(at);
  }

  /** A byte stream with a cursor: Go's bufio.Reader over the bytes it will ever deliver. */
  class ByteReader {
    const data: seq<byte>
    var position: nat

    constructor (data: seq<byte>)
      ensures this.data == data && position == 0
    {
      this.data := data;
      position := 0;
    }

    ghost predicate Valid()
      reads this
    {
      position <= |data|
    }

    method ReadByte() returns (r: Option<byte>)
      requires Valid()
      modifies this
      ensures Valid()
      ensures old(position) < |data| ==> r == Some(data[old(position)]) && position == old(position) + 1
      ensures old(position) == |data| ==> r == None && position == old(position)
    {
      if position < |data| {
        r := Some(data[position]);
        position := position + 1;
      } else {
        r := None;
      }
    }

    /** io.ReadFull: all n bytes, or everything that is left and an error. */
    method ReadFull(n: nat) returns (r: Option<seq<byte>>)
      requires Valid()
      modifies this
      ensures Valid()
      ensures old(position) + n <= |data| ==>
                r == Some(data[old(position)..old(position) + n]) && position == old(position) + n
      ensures old(position) + n > |data| ==> r == None && position == |data|
    {
      if position + n <= |data| {
        r := Some(data[position..position + n]);
        position := position + n;
      } else {
        r := None;
        position := |data|;
      }
    }
  }

  /** readVarint: byte by byte from a stream. It computes what ConsumeVarint computes. */
  method ReadVarint(reader: ByteReader) returns (r: Outcome)
    requires reader.Valid()
    modifies reader
    ensures reader.Valid()
    ensures r == Consume(reader.data, old(reader.position))
    ensures reader.position == r.next
  {
    var value: uint64 := 0;
    for count := 0 to MAX_VARINT_LENGTH
      invariant reader.Valid()
      invariant Consume(reader.data, old(reader.position)) == ConsumeFrom(reader.data, reader.position, count, value)
    {
      var read := reader.ReadByte();
      if read == None {
        return Eof(reader.position);
      }
      var current := read.value;
      if value > (TWO_TO_THE_64 - 1) / 128 {
        return Overflow(reader.position);
      }
      value := value * 128 + current % 128;
      if current < 128 {
        return Value(value, reader.position);
      }
    }
    return Overflow(reader.position);
  }

  // ----- round trip -----

  /** Behind the leading digits of v the reader's accumulator is v, after |HighDigits(v)| bytes. */
  lemma {:induction false} ConsumeHighDigits(pre: seq<byte>, v: uint64, rest: seq<byte>)
    requires |HighDigits(v)| < MAX_VARINT_LENGTH
    ensures Consume(pre + HighDigits(v) + rest, |pre|)
            == ConsumeFrom(pre + HighDigits(v) + rest, |pre| + |HighDigits(v)|, |HighDigits(v)|, v)
  {
    if v != 0 {
      var last: seq<byte> := [v % 128 + 128];
      ConsumeHighDigits(pre, v / 128, last + rest);
      assert pre + HighDigits(v) + rest == pre + HighDigits(v / 128) + (last + rest);
    }
  }

  /** Every uint64 reads back, whatever precedes and follows it. */
  lemma {:induction false} RoundTrip(pre: seq<byte>, v: uint64, rest: seq<byte>)
    ensures Consume(pre + Encode(v) + rest, |pre|) == Value(v, |pre| + |Encode(v)|)
  {
    EncodeLengthUint64(v);
    ConsumeHighDigits(pre, v / 128, [v % 128] + rest);
    assert pre + Encode(v) + rest == pre + HighDigits(v / 128) + ([v % 128] + rest);
  }

  lemma {:induction false} RoundTripAt(data: seq<byte>, position: nat, v: uint64)
    requires StandsAt(Encode(v), data, position)
    ensures Consume(data, position) == Value(v, position + |Encode(v)|)
  {
    var rest := data[position + |Encode(v)|..];
    RoundTrip(data[..position], v, rest);
    assert data == data[..position] + Encode(v) + rest;
  }

  // ----- exactly when reading succeeds -----

  /** The number a digit string denotes, with no width limit. */
  function Base128(s: seq<byte>): nat {
    if s == [] then 0 else Base128(s[..|s| - 1]) * 128 + s[|s| - 1] % 128
  }

  /** data[position..] starts with a digit string of n bytes, the last one unmarked. */
  ghost predicate DigitString(data: seq<byte>, position: nat, n: nat) {
    && 1 <= n && position + n <= |data|
    && data[position + n - 1] < 128
    && forall i :: position <= i < position + n - 1 ==> data[i] >= 128
  }

  lemma {:induction false} Base128Below(s: seq<byte>)
    ensures Base128(s) < Pow128(|s|)
  {
    if s != [] { Base128Below(s[..|s| - 1]); }
  }

  /** The encoding is the shortest: no digit string with the same number has fewer bytes. */
  lemma {:induction false} EncodeShortest(s: seq<byte>)
    requires s != []
    ensures |Encode(Base128(s))| <= |s|
  {
    Base128Below(s);
    EncodeLength(Base128(s), |s|);
  }

  lemma {:induction false} Base128Grows(s: seq<byte>, n: nat)
    requires n <= |s|
    ensures Base128(s[..n]) <= Base128(s)
  {
    if n < |s| {
      Base128Grows(s[..|s| - 1], n);
      assert s[..|s| - 1][..n] == s[..n];
    } else {
      assert s[..n] == s;
    }
  }

  lemma {:induction false} ConsumeFromExact(data: seq<byte>, position: nat, count: nat, n: nat)
    requires count < n && DigitString(data, position, n)
    requires count <= MAX_VARINT_LENGTH
    requires Base128(data[position..position + count]) < TWO_TO_THE_64
    ensures var r := ConsumeFrom(data, position + count, count, Base128(data[position..position + count]));
            if n <= MAX_VARINT_LENGTH && Base128(data[position..position + n]) < TWO_TO_THE_64
            then r == Value(Base128(data[position..position + n]), position + n)
            else r.Overflow?
    decreases n - count
  {
    var acc := Base128(data[position..position + count]);
    if count < MAX_VARINT_LENGTH {
      var current := data[position + count];
      OverflowTest(acc, current % 128);
      Base128Step(data, position, count);
      if acc > (TWO_TO_THE_64 - 1) / 128 {
        Base128GrowsWithin(data, position, count + 1, n);
      } else if current >= 128 {
        ConsumeFromExact(data, position, count + 1, n);
      }
    }
  }

  lemma {:induction false} Base128GrowsWithin(data: seq<byte>, position: nat, m: nat, n: nat)
    requires m <= n && position + n <= |data|
    ensures Base128(data[position..position + m]) <= Base128(data[position..position + n])
  {
    Base128Grows(data[position..position + n], m);
    assert data[position..position + n][..m] == data[position..position + m];
  }

  /** The test made before a shift is the test that the shifted value would still fit. */
  lemma {:induction false} OverflowTest(acc: nat, digit: nat)
    requires digit < 128
    ensures acc > (TWO_TO_THE_64 - 1) / 128 <==> acc * 128 + digit >= TWO_TO_THE_64
  {
    assert TWO_TO_THE_64 == 128 * 0x200_0000_0000_0000;
  }

  lemma {:induction false} Base128Step(data: seq<byte>, position: nat, count: nat)
    requires position + count < |data|
    ensures Base128(data[position..position + count + 1])
            == Base128(data[position..position + count]) * 128 + data[position + count] % 128
  {
    assert data[position..position + count + 1][..count] == data[position..position + count];
  }

  lemma {:induction false} ConsumeFromValue(data: seq<byte>, position: nat, count: nat, acc: uint64)
    requires position + count <= |data| && count <= MAX_VARINT_LENGTH
    requires forall i :: position <= i < position + count ==> data[i] >= 128
    requires ConsumeFrom(data, position + count, count, acc).Value?
    ensures exists n: nat :: n <= MAX_VARINT_LENGTH && DigitString(data, position, n)
    decreases MAX_VARINT_LENGTH - count
  {
    if data[position + count] < 128 {
      assert DigitString(data, position, count + 1);
    } else {
      ConsumeFromValue(data, position, count + 1, acc * 128 + data[position + count] % 128);
    }
  }

  /** Reading succeeds exactly on a digit string of at most ten bytes whose number fits in
      64 bits, and then returns that number and stops just behind the string. */
  lemma {:induction false} ConsumeSucceedsExactlyWhen(data: seq<byte>, position: nat)
    requires position <= |data|
    ensures Consume(data, position).Value? <==>
            exists n: nat :: n <= 10 && DigitString(data, position, n)
                        && Base128(data[position..position + n]) < TWO_TO_THE_64
    ensures forall n: nat :: DigitString(data, position, n) && Consume(data, position).Value? ==>
                          Consume(data, position) == Value(Base128(data[position..position + n]), position + n)
  {
    assert data[position..position] == [];
    if Consume(data, position).Value? {
      ConsumeFromValue(data, position, 0, 0);
    }
    forall n: nat | DigitString(data, position, n)
      ensures if n <= MAX_VARINT_LENGTH && Base128(data[position..position + n]) < TWO_TO_THE_64
              then Consume(data, position) == Value(Base128(data[position..position + n]), position + n)
              else Consume(data, position).Overflow?
    {
      ConsumeFromExact(data, position, 0, n);
    }
  }

  lemma {:induction false} ConsumeFromRunsOut(data: seq<byte>, position: nat, count: nat, acc: uint64)
    requires position <= |data| && count <= MAX_VARINT_LENGTH && acc < Pow128(count)
    ensures ConsumeFrom(data, position, count, acc).Eof? <==>
            |data| - position + count < MAX_VARINT_LENGTH && forall i :: position <= i < |data| ==> data[i] >= 128
    decreases |data| - position
  {
    if count < MAX_VARINT_LENGTH && position < |data| {
      if acc > (TWO_TO_THE_64 - 1) / 128 {
        if count < 9 { Pow128Grows(count, 8); }
        assert Pow128(8) == 72057594037927936 by { assert Pow128(4) == 268435456; }
      } else if data[position] >= 128 {
        ConsumeFromRunsOut(data, position + 1, count + 1, acc * 128 + data[position] % 128);
      }
    }
  }

  lemma {:induction false} Pow128Grows(m: nat, n: nat)
    requires m <= n
    ensures Pow128(m) <= Pow128(n)
  {
    if m < n { Pow128Grows(m, n - 1); }
  }

  /** Of the two errors, the end of the input is reported exactly when fewer than ten bytes are
      left and every one of them is marked; all other failures are overflows. */
  lemma {:induction false} ConsumeRunsOutExactlyWhen(data: seq<byte>, position: nat)
    requires position <= |data|
    ensures Consume(data, position).Eof? <==>
            |data| - position < 10 && forall i :: position <= i < |data| ==> data[i] >= 128
  {
    ConsumeFromRunsOut(data, position, 0, 0);
  }

  // ----- several in a row -----

  function EncodeAll(values: seq<uint64>): seq<byte> {
    if values == [] then [] else Encode(values[0]) + EncodeAll(values[1..])
  }

  datatype Row = Row(values: seq<uint64>, next: nat, complete: bool)

  /** Read `count` more integers behind the ones in hand, or stop where one cannot be read. */
  function ReadAll(data: seq<byte>, position: nat, count: nat, values: seq<uint64>): (r: Row)
    requires position <= |data|
    ensures position <= r.next <= |data|
    ensures r.complete ==> |r.values| == |values| + count && position + count <= r.next
    decreases |data| - position
  {
    if count == 0 then Row(values, position, true)
    else
      var first := Consume(data, position);
      if first.Value? then ReadAll(data, first.next, count - 1, values + [first.value])
      else Row(values, first.next, false)
  }

  lemma {:induction false} ReadAllOfEncoded(data: seq<byte>, position: nat, values: seq<uint64>, before: seq<uint64>)
    requires StandsAt(EncodeAll(values), data, position)
    ensures ReadAll(data, position, |values|, before) == Row(before + values, position + |EncodeAll(values)|, true)
    decreases |values|
  {
    if values == [] {
      assert before + values == before;
    } else {
      var first, rest := Encode(values[0]), values[1..];
      StandsAtParts(first, EncodeAll(rest), data, position);
      RoundTripAt(data, position, values[0]);
      ReadAllOfEncoded(data, position + |first|, rest, before + [values[0]]);
      assert before + [values[0]] + rest == before + values;
    }
  }

  lemma {:induction false} FiveEncoded(a: uint64, b: uint64, c: uint64, d: uint64, e: uint64)
    ensures EncodeAll([a, b, c, d, e]) == Encode(a) + Encode(b) + Encode(c) + Encode(d) + Encode(e)
  {
    EncodeAllCons(e, []);
    EncodeAllCons(d, [e]);
    EncodeAllCons(c, [d, e]);
    EncodeAllCons(b, [c, d, e]);
    EncodeAllCons(a, [b, c, d, e]);
    assert [a] + [b, c, d, e] == [a, b, c, d, e];
    assert [b] + [c, d, e] == [b, c, d, e];
    assert [c] + [d, e] == [c, d, e];
    assert [d] + [e] == [d, e];
    assert [e] + [] == [e];
  }

  lemma {:induction false} EncodeAllCons(value: uint64, rest: seq<uint64>)
    ensures EncodeAll([value] + rest) == Encode(value) + EncodeAll(rest)
  {
    assert ([value] + rest)[1..] == rest;
  }
}
