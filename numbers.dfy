/**
 * The decimal parsers of flex-fsk-tx (str2int, str2uint64) and the decimal
 * rendering the AT commands use for capcodes and sizes. A C string is the
 * sequence of its bytes before the terminating NUL.
 */
module Numbers {
  const ZERO: bv8 := 0x30
  const NINE: bv8 := 0x39
  const PLUS: bv8 := 0x2B
  const CR: bv8 := 0x0D
  const LF: bv8 := 0x0A
  const MINUS: bv8 := 0x2D

  const INT_MIN: int := -0x8000_0000
  const INT_MAX: int := 0x7FFF_FFFF
  const UINT64_MAX: int := 0xFFFF_FFFF_FFFF_FFFF

  /** The status a parser returns and the value its out-parameter holds afterwards. */
  datatype Stored<T> = Stored(status: int, out: T)

  // ---------------------------------------------------------------------
  // Digits
  // ---------------------------------------------------------------------

  predicate IsDigit(c: bv8)
  {
    ZERO <= c <= NINE
  }

  predicate AllDigits(s: seq<bv8>)
  {
    forall i :: 0 <= i < |s| ==> IsDigit(s[i])
  }

  function DigitValue(c: bv8): (d: nat)
    requires IsDigit(c)
    ensures d < 10
  {
    (c - ZERO) as nat
  }

  function DigitChar(d: nat): (c: bv8)
    requires d < 10
    ensures IsDigit(c) && DigitValue(c) == d
  {
    ZERO + d as bv8
  }

  /** The value of the first `n` digits of `s`, most significant first. */
  function ValueUpTo(s: seq<bv8>, n: nat): nat
    requires n <= |s| && AllDigits(s)
  {
    if n == 0 then 0 else 10 * ValueUpTo(s, n - 1) + DigitValue(s[n - 1])
  }

  function Value(s: seq<bv8>): nat
    requires AllDigits(s)
  {
    ValueUpTo(s, |s|)
  }

  /** The shortest decimal rendering of `n` (printf's %d, %zu and PRIu64 for non-negative values). */
  function Decimal(n: nat): (s: seq<bv8>)
    ensures |s| > 0 && AllDigits(s)
  {
    if n < 10 then [DigitChar(n)] else Decimal(n / 10) + [DigitChar(n % 10)]
  }

  // ---------------------------------------------------------------------
  // The parsers
  // ---------------------------------------------------------------------

  /** The digits after an optional sign, and whether the sign was a minus. */
  function Unsigned(s: seq<bv8>): (r: (bool, seq<bv8>))
    ensures |r.1| <= |s|
  {
    if |s| > 0 && s[0] == MINUS then (true, s[1..])
    else if |s| > 0 && s[0] == PLUS then (false, s[1..])
    else (false, s)
  }

  /**
   * str2int: 0 and the parsed value for an optionally signed run of digits
   * that fits an `int`; -1 and `out` unchanged otherwise.
   */
  function Str2Int(out: int, s: seq<bv8>): (r: Stored<int>)
    ensures r.status == 0 || r.status == -1
    ensures r.status == -1 ==> r.out == out
    ensures r.status == 0 ==> INT_MIN <= r.out <= INT_MAX
  {
    if s == [] then Stored(-1, out)
    else
      var (negative, digits) := Unsigned(s);
      if digits == [] || !AllDigits(digits) then Stored(-1, out)
      else
        var v: int := if negative then -(Value(digits) as int) else Value(digits);
        if v > INT_MAX || v < INT_MIN then Stored(-1, out) else Stored(0, v)
  }

  /**
   * str2uint64: 0 and the parsed value for an optionally signed run of
   * digits whose magnitude fits 64 bits (a minus sign negates modulo 2^64,
   * as strtoull does); -1 and `out` unchanged otherwise.
   */
  function Str2Uint64(out: nat, s: seq<bv8>): (r: Stored<nat>)
    ensures r.status == 0 || r.status == -1
    ensures r.status == -1 ==> r.out == out
    ensures r.status == 0 ==> r.out <= UINT64_MAX
  {
    if s == [] then Stored(-1, out)
    else
      var (negative, digits) := Unsigned(s);
      if digits == [] || !AllDigits(digits) || Value(digits) > UINT64_MAX then Stored(-1, out)
      else if negative && Value(digits) > 0 then Stored(0, UINT64_MAX + 1 - Value(digits))
      else Stored(0, Value(digits))
  }

  // ---------------------------------------------------------------------
  // Properties
  // ---------------------------------------------------------------------

  /** Digits read back after an extension only depend on the digits already there. */
  lemma {:induction false} ValueUpToExtend(xs: seq<bv8>, ys: seq<bv8>, n: nat)
    requires n <= |xs| && AllDigits(xs) && AllDigits(ys)
    ensures AllDigits(xs + ys)
    ensures ValueUpTo(xs + ys, n) == ValueUpTo(xs, n)
  {
    assert AllDigits(xs + ys) by {
      forall i | 0 <= i < |xs + ys|
        ensures IsDigit((xs + ys)[i])
      {
        if i >= |xs| {
          assert (xs + ys)[i] == ys[i - |xs|];
        }
      }
    }
    if n > 0 {
      ValueUpToExtend(xs, ys, n - 1);
    }
  }

  /** Appending a digit shifts the value one decimal place. */
  lemma ValueSnoc(s: seq<bv8>, c: bv8)
    requires AllDigits(s) && IsDigit(c)
    ensures AllDigits(s + [c])
    ensures Value(s + [c]) == 10 * Value(s) + DigitValue(c)
  {
    ValueUpToExtend(s, [c], |s|);
  }

  /** Reading a number's decimal rendering gives the number back. */
  lemma {:induction false} DecimalValue(n: nat)
    ensures Value(Decimal(n)) == n
  {
    if n >= 10 {
      var c := DigitChar(n % 10);
      assert Decimal(n) == Decimal(n / 10) + [c];
      DecimalValue(n / 10);
      ValueSnoc(Decimal(n / 10), c);
    } else {
      assert ValueUpTo(Decimal(n), 0) == 0;
    }
  }

  /** str2int accepts the rendering of every `int`, with a minus sign for negative values. */
  lemma Str2IntDecimal(out: int, n: int)
    requires INT_MIN <= n <= INT_MAX
    ensures n >= 0 ==> Str2Int(out, Decimal(n)) == Stored(0, n)
    ensures n < 0 ==> Str2Int(out, [MINUS] + Decimal(-n)) == Stored(0, n)
  {
    if n >= 0 {
      DecimalValue(n);
      assert Decimal(n)[0] != MINUS && Decimal(n)[0] != PLUS;
      assert Unsigned(Decimal(n)) == (false, Decimal(n));
    } else {
      DecimalValue(-n);
      assert ([MINUS] + Decimal(-n))[1..] == Decimal(-n);
    }
  }

  /** str2uint64 accepts the rendering of every 64-bit value. */
  lemma Str2Uint64Decimal(out: nat, n: nat)
    requires n <= UINT64_MAX
    ensures Str2Uint64(out, Decimal(n)) == Stored(0, n)
  {
    DecimalValue(n);
    assert Decimal(n)[0] != MINUS && Decimal(n)[0] != PLUS;
    assert Unsigned(Decimal(n)) == (false, Decimal(n));
  }

  /** Both parsers reject a string that ends in anything but a digit. */
  lemma TrailingRejected(out: int, unsignedOut: nat, s: seq<bv8>, c: bv8)
    requires !IsDigit(c)
    ensures Str2Int(out, s + [c]) == Stored(-1, out)
    ensures Str2Uint64(unsignedOut, s + [c]) == Stored(-1, unsignedOut)
  {
    var t := s + [c];
    var digits := Unsigned(t).1;
    if digits != [] {
      assert digits[|digits| - 1] == c;
    }
  }

  /** str2int rejects every value beyond the `int` range. */
  lemma Str2IntRange(out: int, s: seq<bv8>)
    requires AllDigits(s) && s != [] && Value(s) > INT_MAX
    ensures Str2Int(out, s) == Stored(-1, out)
    ensures Value(s) > -INT_MIN ==> Str2Int(out, [MINUS] + s) == Stored(-1, out)
  {
    assert s[0] != MINUS && s[0] != PLUS;
    assert ([MINUS] + s)[1..] == s;
  }
}
