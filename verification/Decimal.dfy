/** ASCII and decimal notation, as strconv.FormatInt, FormatUint and ParseInt use it. */
module Decimal {
  import opened Common

  type Text = seq<byte>

  const TAB: byte := 9
  const NEWLINE: byte := 10
  const CARRIAGE_RETURN: byte := 13
  const SPACE: byte := 32
  const STAR: byte := 42
  const PLUS: byte := 43
  const COMMA: byte := 44
  const MINUS: byte := 45
  const ZERO: byte := 48
  const NINE: byte := 57
  const COLON: byte := 58

  predicate IsDigit(c: byte) {
    ZERO <= c <= NINE
  }

  predicate AllDigits(s: Text) {
    forall i :: 0 <= i < |s| ==> IsDigit(s[i])
  }

  function Format(n: nat): Text {
    if n < 10 then [ZERO + n] else Format(n / 10) + [ZERO + n % 10]
  }

  function FormatInt(n: int): Text {
    if n < 0 then [MINUS] + Format(-n) else Format(n)
  }

  /** The number the first n digits of s stand for. */
  function Value(s: Text, n: nat): nat
    requires n <= |s| && AllDigits(s)
  {
    if n == 0 then 0 else 10 * Value(s, n - 1) + (s[n - 1] - ZERO)
  }

  lemma {:induction false} ValuePrefix(s: Text, t: Text, n: nat)
    requires n <= |s| <= |t| && AllDigits(s) && AllDigits(t)
    requires forall i :: 0 <= i < n ==> s[i] == t[i]
    ensures Value(s, n) == Value(t, n)
  {
    if n > 0 {
      ValuePrefix(s, t, n - 1);
    }
  }

  /** Printing and reading a number gives it back. */
  lemma {:induction false} FormatRoundTrip(n: nat)
    ensures Format(n) != [] && AllDigits(Format(n)) && Value(Format(n), |Format(n)|) == n
  {
    var s := Format(n);
    if n >= 10 {
      FormatRoundTrip(n / 10);
      var high := Format(n / 10);
      ValuePrefix(high, s, |high|);
    } else {
      assert Value(s, 0) == 0;
    }
  }

  /** A power of ten. */
  function Pow10(k: nat): nat {
    if k == 0 then 1 else 10 * Pow10(k - 1)
  }

  /** A number below 10^k has at most k digits. */
  lemma {:induction false} FormatLength(n: nat, k: nat)
    requires k > 0 && n < Pow10(k)
    ensures |Format(n)| <= k
  {
    if n >= 10 {
      FormatLength(n / 10, k - 1);
    }
  }

  lemma {:induction false} Uint64Digits(n: uint64)
    ensures |Format(n)| <= 20
  {
    assert Pow10(5) == 100000;
    assert Pow10(10) == 10000000000;
    assert Pow10(15) == 1000000000000000;
    assert Pow10(20) == 100000000000000000000;
    FormatLength(n, 20);
  }

  /** strconv.ParseInt(s, 10, 64) for the callers that refuse a result below 1: an optional sign,
      digits, and a value that fits. */
  function ParsePositive(s: Text): Option<int> {
    var digits := if s != [] && (s[0] == PLUS || s[0] == MINUS) then s[1..] else s;
    if digits == [] || !AllDigits(digits) || (s[0] == MINUS) then None
    else
      var n := Value(digits, |digits|);
      if 0 < n <= MAX_INT64 then Some(n) else None
  }

  lemma {:induction false} ParseFormat(n: int)
    requires 0 < n <= MAX_INT64
    ensures ParsePositive(Format(n)) == Some(n)
  {
    FormatRoundTrip(n);
    assert IsDigit(Format(n)[0]);
  }
}
