/** The differ (delta/xdelta.go): a rolling hash over 64-byte blocks, an index of the source
    by hash, and a greedy scan of the target. */
module Xdelta {
  import opened Common
  import opened Window

  const BLOCK_SIZE := 64
  const MAX_CANDIDATES := 64
  const GOOD_MATCH := 1024

  const TWO_TO_THE_16 := 0x1_0000
  const TWO_TO_THE_32 := 0x1_0000_0000

  type uint32 = x: int | 0 <= x < TWO_TO_THE_32

  // ----- the rolling hash -----

  function Low(b: seq<byte>): nat {
    if b == [] then 0 else b[0] + Low(b[1..])
  }

  /** Each byte weighted by its distance from the end of the block. */
  function High(b: seq<byte>): nat {
    if b == [] then 0 else |b| * b[0] + High(b[1..])
  }

  /** The hash of a block: the two sums, each modulo 2^16, side by side. */
  function Hash(b: seq<byte>): uint32
    requires |b| == BLOCK_SIZE
  {
    Low(b) % TWO_TO_THE_16 + High(b) % TWO_TO_THE_16 * TWO_TO_THE_16
  }

  function RollHash(hash: uint32, outgoing: byte, incoming: byte): uint32 {
    var low := (hash % TWO_TO_THE_16 - outgoing + incoming) % TWO_TO_THE_32;
    var high := (hash / TWO_TO_THE_16 % TWO_TO_THE_16 - BLOCK_SIZE * outgoing + low) % TWO_TO_THE_32;
    low % TWO_TO_THE_16 + high % TWO_TO_THE_16 * TWO_TO_THE_16
  }

  lemma {:induction false} SumBounds(b: seq<byte>)
    requires |b| <= BLOCK_SIZE
    ensures Low(b) <= 255 * |b|
    ensures High(b) <= 255 * BLOCK_SIZE * |b|
  {
    if b != [] {
      SumBounds(b[1..]);
      ProductBound(|b|, b[0]);
    }
  }

  lemma {:induction false} ProductBound(n: nat, v: byte)
    requires n <= BLOCK_SIZE
    ensures n * v <= 255 * BLOCK_SIZE
  {
  }

  lemma {:induction false} SumsSnoc(b: seq<byte>, x: byte)
    ensures Low(b + [x]) == Low(b) + x
    ensures High(b + [x]) == High(b) + Low(b) + x
  {
    if b != [] {
      assert (b + [x])[1..] == b[1..] + [x];
      SumsSnoc(b[1..], x);
      Distribute(|b|, b[0]);
    } else {
      assert ([x])[1..] == [];
    }
  }

  /** Truncating to 32 bits and then to 16 is truncating to 16. */
  lemma {:induction false} Truncations(x: int)
    ensures x % TWO_TO_THE_32 % TWO_TO_THE_16 == x % TWO_TO_THE_16
  {
    var q, r := x / TWO_TO_THE_32, x % TWO_TO_THE_32;
    ModUnique(x, TWO_TO_THE_16, q * TWO_TO_THE_16 + r / TWO_TO_THE_16, r % TWO_TO_THE_16);
  }

  lemma {:induction false} Congruent(high: nat, delta: int)
    ensures (high % TWO_TO_THE_16 + delta) % TWO_TO_THE_16 == (high + delta) % TWO_TO_THE_16
  {
    var x := high % TWO_TO_THE_16 + delta;
    ModUnique(high + delta, TWO_TO_THE_16, high / TWO_TO_THE_16 + x / TWO_TO_THE_16, x % TWO_TO_THE_16);
  }

  /** The arithmetic of one roll: subtracting in 32 bits and truncating to 16 loses nothing. */
  lemma {:induction false} RollArithmetic(low: nat, high: nat, low': nat, high': nat, outgoing: byte, incoming: byte)
    requires low < TWO_TO_THE_16 && low' < TWO_TO_THE_16
    requires low' == low - outgoing + incoming
    requires high' == high - BLOCK_SIZE * outgoing + low'
    ensures 0 <= low + high % TWO_TO_THE_16 * TWO_TO_THE_16 < TWO_TO_THE_32
    ensures RollHash(low + high % TWO_TO_THE_16 * TWO_TO_THE_16, outgoing, incoming)
            == low' + high' % TWO_TO_THE_16 * TWO_TO_THE_16
  {
    var h := high % TWO_TO_THE_16;
    var hash := low + h * TWO_TO_THE_16;
    assert hash % TWO_TO_THE_16 == low && hash / TWO_TO_THE_16 == h by { ModUnique(hash, TWO_TO_THE_16, h, low); }
    assert h % TWO_TO_THE_16 == h by { ModUnique(h, TWO_TO_THE_16, 0, h); }
    assert low' % TWO_TO_THE_32 == low' by { ModUnique(low', TWO_TO_THE_32, 0, low'); }
    assert low' % TWO_TO_THE_16 == low' by { ModUnique(low', TWO_TO_THE_16, 0, low'); }
    var rolled := h - BLOCK_SIZE * outgoing + low';
    assert rolled % TWO_TO_THE_32 % TWO_TO_THE_16 == high' % TWO_TO_THE_16 by {
      Truncations(rolled);
      Congruent(high, low' - BLOCK_SIZE * outgoing);
    }
  }

  lemma {:induction false} HashFromSums(b: seq<byte>)
    requires |b| == BLOCK_SIZE
    ensures Low(b) < TWO_TO_THE_16
    ensures Hash(b) == Low(b) + High(b) % TWO_TO_THE_16 * TWO_TO_THE_16
  {
    SumBounds(b);
    ModUnique(Low(b), TWO_TO_THE_16, 0, Low(b));
  }

  lemma {:induction false} SumsShift(before: seq<byte>, after: seq<byte>, outgoing: byte, incoming: byte)
    requires |before| > 0 && before + [incoming] == [outgoing] + after
    ensures Low(after) == Low(before) - outgoing + incoming
    ensures High(after) == High(before) - |before| * outgoing + Low(after)
  {
    SumsSnoc(before, incoming);
    SumsCons(outgoing, after);
    assert |before| == |after|;
  }

  lemma {:induction false} SumsCons(x: byte, b: seq<byte>)
    ensures Low([x] + b) == x + Low(b)
    ensures High([x] + b) == |b| * x + x + High(b)
  {
    assert ([x] + b)[1..] == b;
    Distribute(|b|, x);
  }

  lemma {:induction false} Distribute(n: nat, v: nat)
    ensures (n + 1) * v == n * v + v
  {
  }

  /** Rolling by one byte is rehashing the shifted block. */
  lemma {:induction false} RollHashShifts(b: seq<byte>)
    requires |b| == 65
    ensures RollHash(Hash(b[..BLOCK_SIZE]), b[0], b[BLOCK_SIZE]) == Hash(b[1..])
  {
    var before, after := b[..BLOCK_SIZE], b[1..];
    assert before + [b[BLOCK_SIZE]] == [b[0]] + after;
    SumsShift(before, after, b[0], b[BLOCK_SIZE]);
    HashFromSums(before);
    HashFromSums(after);
    RollArithmetic(Low(before), High(before), Low(after), High(after), b[0], b[BLOCK_SIZE]);
  }

  /** One iteration of the summing loop adds one term to each sum and overflows neither. */
  lemma {:induction false} HashLoopStep(block: seq<byte>, index: nat, low: nat, high: nat)
    requires index < |block| == BLOCK_SIZE
    requires Low(block) == low + Low(block[index..]) && High(block) == high + High(block[index..])
    ensures var low' := low + block[index];
            low' % TWO_TO_THE_32 == low' && Low(block) == low' + Low(block[index + 1..])
    ensures var high' := high + (|block| - index) * block[index];
            high' % TWO_TO_THE_32 == high' && High(block) == high' + High(block[index + 1..])
  {
    SumStep(block, index);
    SumBounds(block);
    ModUnique(low + block[index], TWO_TO_THE_32, 0, low + block[index]);
    var weighted := (|block| - index) * block[index];
    ModUnique(high + weighted, TWO_TO_THE_32, 0, high + weighted);
  }

  lemma {:induction false} SumStep(block: seq<byte>, index: nat)
    requires index < |block|
    ensures Low(block[index..]) == block[index] + Low(block[index + 1..])
    ensures High(block[index..]) == (|block| - index) * block[index] + High(block[index + 1..])
    ensures (|block| - index) * block[index] >= 0
  {
    var value, rest := block[index], block[index + 1..];
    assert block[index..] == [value] + rest;
    SumsCons(value, rest);
    Distribute(|rest|, value);
  }

  /** Shifting the high sum into the top half drops all but its low 16 bits. */
  lemma {:induction false} Halves(low: nat, high: nat)
    requires low < TWO_TO_THE_16
    ensures low % TWO_TO_THE_16 == low
    ensures high * TWO_TO_THE_16 % TWO_TO_THE_32 == high % TWO_TO_THE_16 * TWO_TO_THE_16
  {
    ModUnique(low, TWO_TO_THE_16, 0, low);
    ModUnique(high * TWO_TO_THE_16, TWO_TO_THE_32, high / TWO_TO_THE_16, high % TWO_TO_THE_16 * TWO_TO_THE_16);
  }

  /** rollingHash, at the block length of both its callers: 64 bytes keep the low sum under
      2^16, so that combining the halves by bitwise or is adding them. */
  method RollingHash(block: seq<byte>) returns (hash: uint32)
    requires |block| == BLOCK_SIZE
    ensures hash == Hash(block)
  {
    var low: uint32, high: uint32 := 0, 0;
    for index := 0 to |block|
      invariant Low(block) == low + Low(block[index..])
      invariant High(block) == high + High(block[index..])
    {
      var value := block[index];
      HashLoopStep(block, index, low, high);
      low := (low + value) % TWO_TO_THE_32;
      high := (high + (|block| - index) * value) % TWO_TO_THE_32;
    }
    SumBounds(block);
    Halves(low, high);
    hash := low + high * TWO_TO_THE_16 % TWO_TO_THE_32;
  }

  // ----- the source index -----

  function BlockCount(source: seq<byte>): nat {
    if |source| < BLOCK_SIZE then 0 else |source| - BLOCK_SIZE + 1
  }

  function Block(s: seq<byte>, position: nat): (b: seq<byte>)
    requires position + BLOCK_SIZE <= |s|
    ensures |b| == BLOCK_SIZE
  {
    s[position..position + BLOCK_SIZE]
  }

  /** The positions below n whose block has the given hash, ascending. */
  function Bucket(source: seq<byte>, hash: uint32, n: nat): seq<nat>
    requires n <= BlockCount(source)
  {
    if n == 0 then []
    else Bucket(source, hash, n - 1) + (if Hash(Block(source, n - 1)) == hash then [n - 1] else [])
  }

  lemma {:induction false} BucketExact(source: seq<byte>, hash: uint32, n: nat)
    requires n <= BlockCount(source)
    ensures forall p :: p in Bucket(source, hash, n) <==> 0 <= p < n && Hash(Block(source, p)) == hash
    ensures forall i, j :: 0 <= i < j < |Bucket(source, hash, n)| ==>
                             Bucket(source, hash, n)[i] < Bucket(source, hash, n)[j]
  {
    if n > 0 {
      BucketExact(source, hash, n - 1);
      var shorter := Bucket(source, hash, n - 1);
      assert forall i :: 0 <= i < |shorter| ==> shorter[i] in shorter;
    }
  }

  function Lookup(index: map<uint32, seq<nat>>, hash: uint32): seq<nat> {
    if hash in index then index[hash] else []
  }

  ghost predicate Indexes(index: map<uint32, seq<nat>>, source: seq<byte>, n: nat)
    requires n <= BlockCount(source)
  {
    forall hash: uint32 :: Lookup(index, hash) == Bucket(source, hash, n)
  }

  lemma {:induction false} IndexGrows(index: map<uint32, seq<nat>>, source: seq<byte>, position: nat, hash: uint32)
    requires position < BlockCount(source) && Indexes(index, source, position)
    requires hash == Hash(Block(source, position))
    ensures Indexes(index[hash := Lookup(index, hash) + [position]], source, position + 1)
  {
    forall h: uint32 {:trigger Bucket(source, h, position + 1)}
      ensures Lookup(index[hash := Lookup(index, hash) + [position]], h) == Bucket(source, h, position + 1)
    {
      assert Lookup(index, h) == Bucket(source, h, position);
    }
  }

  method BuildSourceIndex(source: seq<byte>) returns (index: map<uint32, seq<nat>>)
    ensures Indexes(index, source, BlockCount(source))
  {
    index := map[];
    if |source| < BLOCK_SIZE {
      return;
    }
    var hash := RollingHash(source[..BLOCK_SIZE]);
    index := index[hash := Lookup(index, hash) + [0]];
    assert Block(source, 0) == source[..BLOCK_SIZE];
    var position := 1;
    while position + BLOCK_SIZE <= |source|
      invariant 1 <= position <= BlockCount(source)
      invariant hash == Hash(Block(source, position - 1))
      invariant Indexes(index, source, position)
    {
      RollHashShifts(source[position - 1..position + BLOCK_SIZE]);
      assert source[position - 1..position + BLOCK_SIZE][..BLOCK_SIZE] == Block(source, position - 1);
      assert source[position - 1..position + BLOCK_SIZE][1..] == Block(source, position);
      hash := RollHash(hash, source[position - 1], source[position + BLOCK_SIZE - 1]);
      IndexGrows(index, source, position, hash);
      index := index[hash := Lookup(index, hash) + [position]];
      position := position + 1;
    }
  }

  // ----- matching -----

  /** How many bytes source[c..] and target[p..] agree on. */
  function Agreement(source: seq<byte>, target: seq<byte>, c: nat, p: nat): nat
    requires c <= |source| && p <= |target|
    decreases |source| - c
  {
    if c < |source| && p < |target| && source[c] == target[p] then 1 + Agreement(source, target, c + 1, p + 1) else 0
  }

  lemma {:induction false} AgreementMeans(source: seq<byte>, target: seq<byte>, c: nat, p: nat, n: nat)
    requires c + n <= |source| && p + n <= |target|
    ensures Agreement(source, target, c, p) >= n <==> source[c..c + n] == target[p..p + n]
    decreases n
  {
    if n > 0 {
      if source[c] == target[p] {
        AgreementMeans(source, target, c + 1, p + 1, n - 1);
        var (a, b) := (source[c + 1..c + 1 + (n - 1)], target[p + 1..p + 1 + (n - 1)]);
        assert source[c..c + n] == [source[c]] + a && target[p..p + n] == [target[p]] + b;
        assert ([source[c]] + a)[1..] == a && ([target[p]] + b)[1..] == b;
      } else {
        assert source[c] == source[c..c + n][0] && target[p] == target[p..p + n][0];
      }
    }
  }

  lemma {:induction false} AgreementWithin(source: seq<byte>, target: seq<byte>, c: nat, p: nat)
    requires c <= |source| && p <= |target|
    ensures c + Agreement(source, target, c, p) <= |source|
    ensures p + Agreement(source, target, c, p) <= |target|
    decreases |source| - c
  {
    if c < |source| && p < |target| && source[c] == target[p] {
      AgreementWithin(source, target, c + 1, p + 1);
    }
  }

  /** The agreement is n when the first n bytes agree and the pair behind them does not. */
  lemma {:induction false} AgreementStops(source: seq<byte>, target: seq<byte>, c: nat, p: nat, n: nat)
    requires c + n <= |source| && p + n <= |target|
    requires source[c..c + n] == target[p..p + n]
    requires c + n == |source| || p + n == |target| || source[c + n] != target[p + n]
    ensures Agreement(source, target, c, p) == n
  {
    AgreementWithin(source, target, c, p);
    AgreementMeans(source, target, c, p, n);
    if c + n < |source| && p + n < |target| {
      AgreementMeans(source, target, c, p, n + 1);
      assert source[c..c + n + 1][n] != target[p..p + n + 1][n];
    }
  }

  /** The candidates that the scan looks at: the 64 lowest positions with the right hash. */
  function Candidates(source: seq<byte>, target: seq<byte>, position: nat): (r: seq<nat>)
    requires position + BLOCK_SIZE <= |target|
  {
    var bucket := Bucket(source, Hash(Block(target, position)), BlockCount(source));
    if |bucket| > MAX_CANDIDATES then bucket[..MAX_CANDIDATES] else bucket
  }

  lemma {:induction false} CandidatesInRange(source: seq<byte>, target: seq<byte>, position: nat)
    requires position + BLOCK_SIZE <= |target|
    ensures forall i {:trigger Candidates(source, target, position)[i]} ::
              0 <= i < |Candidates(source, target, position)| ==>
                Candidates(source, target, position)[i] + BLOCK_SIZE <= |source|
  {
    var hash := Hash(Block(target, position));
    BucketExact(source, hash, BlockCount(source));
    var bucket := Bucket(source, hash, BlockCount(source));
    assert forall i :: 0 <= i < |bucket| ==> bucket[i] in bucket;
  }

  /** How far each candidate's agreement reaches. */
  function Reaches(source: seq<byte>, target: seq<byte>, position: nat): (r: seq<nat>)
    requires position + BLOCK_SIZE <= |target|
    ensures |r| == |Candidates(source, target, position)|
  {
    CandidatesInRange(source, target, position);
    var candidates := Candidates(source, target, position);
    seq(|candidates|, i requires 0 <= i < |candidates| => Agreement(source, target, candidates[i], position))
  }

  /** No candidate shares the 64 bytes at this position. */
  ghost predicate Missed(source: seq<byte>, target: seq<byte>, position: nat) {
    position + BLOCK_SIZE <= |target| ==>
      forall j :: 0 <= j < |Reaches(source, target, position)| ==> Reaches(source, target, position)[j] < BLOCK_SIZE
  }

  /** Rank k reaches at least a block, farther than every rank before it and no less far than
      the ranks after it up to n. */
  ghost predicate FirstLongest(reaches: seq<nat>, n: nat, k: nat)
    requires n <= |reaches|
  {
    && k < n && reaches[k] >= 64
    && (forall j :: 0 <= j < k ==> reaches[j] < reaches[k])
    && (forall j :: k < j < n ==> reaches[j] <= reaches[k])
  }

  /** The rank that the scan settles for: the first good match, or else the first longest. */
  ghost predicate Settles(reaches: seq<nat>, k: nat) {
    && k < |reaches|
    && (forall j :: 0 <= j < k ==> reaches[j] < 1024)
    && if reaches[k] >= 1024 then true else FirstLongest(reaches, |reaches|, k)
  }

  /** A copy op of the scan. */
  ghost predicate BestMatch(source: seq<byte>, target: seq<byte>, position: nat, offset: int, length: int) {
    && position + BLOCK_SIZE <= |target|
    && exists k: nat {:trigger Settles(Reaches(source, target, position), k)} ::
         && Settles(Reaches(source, target, position), k)
         && offset == Candidates(source, target, position)[k]
         && length == Reaches(source, target, position)[k]
  }

  /** How far the block at `candidate` extends a match: the innermost loop. */
  method ExtendMatch(source: seq<byte>, target: seq<byte>, candidate: nat, position: nat) returns (length: nat)
    requires candidate + BLOCK_SIZE <= |source| && position + BLOCK_SIZE <= |target|
    requires Block(source, candidate) == Block(target, position)
    ensures length == Agreement(source, target, candidate, position) >= BLOCK_SIZE
  {
    length := BLOCK_SIZE;
    while candidate + length < |source| && position + length < |target|
          && source[candidate + length] == target[position + length]
      invariant BLOCK_SIZE <= length
      invariant candidate + length <= |source| && position + length <= |target|
      invariant source[candidate..candidate + length] == target[position..position + length]
    {
      assert source[candidate..candidate + length + 1] == source[candidate..candidate + length] + [source[candidate + length]];
      assert target[position..position + length + 1] == target[position..position + length] + [target[position + length]];
      length := length + 1;
    }
    AgreementStops(source, target, candidate, position, length);
  }

  /** The search at one position: the body of the scan between its two appends. */
  method FindMatch(source: seq<byte>, target: seq<byte>, position: nat, index: map<uint32, seq<nat>>)
    returns (matchOffset: int, matchLength: nat)
    requires position < |target|
    requires Indexes(index, source, BlockCount(source))
    ensures matchLength == 0 ==> Missed(source, target, position)
    ensures matchLength != 0 ==> BestMatch(source, target, position, matchOffset, matchLength)
  {
    matchOffset, matchLength := -1, 0;
    if position + BLOCK_SIZE <= |target| {
      var hash := RollingHash(target[position..position + BLOCK_SIZE]);
      var candidates := Lookup(index, hash);
      if |candidates| > MAX_CANDIDATES {
        candidates := candidates[..MAX_CANDIDATES];
      }
      matchOffset, matchLength := ScanCandidates(source, target, position, candidates);
    }
  }

  /** The loop over the candidates. */
  method ScanCandidates(source: seq<byte>, target: seq<byte>, position: nat, candidates: seq<nat>)
    returns (matchOffset: int, matchLength: nat)
    requires position + BLOCK_SIZE <= |target|
    requires candidates == Candidates(source, target, position)
    ensures matchLength == 0 ==> Missed(source, target, position)
    ensures matchLength != 0 ==> BestMatch(source, target, position, matchOffset, matchLength)
  {
    matchOffset, matchLength := -1, 0;
    CandidatesInRange(source, target, position);
    ghost var reaches := Reaches(source, target, position);
    ghost var k := 0;
    for i := 0 to |candidates|
      invariant matchLength == 0 ==> forall j :: 0 <= j < i ==> reaches[j] < BLOCK_SIZE
      invariant matchLength != 0 ==> FirstLongest(reaches, i, k) && reaches[k] < GOOD_MATCH
      invariant matchLength != 0 ==> matchOffset == candidates[k] && matchLength == reaches[k]
    {
      var candidate := candidates[i];
      AgreementMeans(source, target, candidate, position, BLOCK_SIZE);
      if source[candidate..candidate + BLOCK_SIZE] != target[position..position + BLOCK_SIZE] {
        continue;
      }
      var length := ExtendMatch(source, target, candidate, position);
      if length > matchLength {
        k := i;
        matchOffset, matchLength := candidate, length;
        if matchLength >= GOOD_MATCH {
          assert Settles(reaches, k);
          return;
        }
      }
    }
    assert matchLength != 0 ==> Settles(reaches, k);
  }
}
