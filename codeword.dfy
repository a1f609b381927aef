/**
 * POCSAG codeword arithmetic: the BCH(31,21) check bits, the even-parity
 * bit, the 32-bit codeword layout and the frame offset of an address.
 *
 * A codeword is [21-bit body][10 check bits][1 parity bit], most
 * significant bit first.  The check bits are the remainder of the body,
 * shifted up by ten places, under long division by the generator
 * polynomial 0b11101101001 over GF(2).
 */
module Codeword {

  const SYNC: bv32 := 0x7CD2_15D8
  const IDLE: bv32 := 0x7A89_C197
  const GENERATOR: bv32 := 0x769
  const FLAG_MESSAGE: bv32 := 0x10_0000
  const FRAME_SIZE: nat := 2

  // ---------------------------------------------------------------------
  // Long division over GF(2)
  // ---------------------------------------------------------------------

  /** The running dividend of the long division (kept as a value of its own). */
  datatype Remainder = Remainder(bits: bv32)

  /** The bit tested in step `column` of the division (bit 30 down to bit 10). */
  function TopBit(column: bv32): bv32
    requires column <= 20
  {
    0x4000_0000 >> column
  }

  /** The generator aligned under `TopBit(column)`. */
  function Divisor(column: bv32): bv32
    requires column <= 20
  {
    (GENERATOR << 20) >> column
  }

  /** Subtract (xor) the divisor when the tested bit is set. */
  function Subtract(m: Remainder, top: bv32, den: bv32): Remainder
  {
    if m.bits & top != 0 then Remainder(m.bits ^ den) else m
  }

  function DivStep(m: Remainder, column: bv32): Remainder
    requires column <= 20
  {
    Subtract(m, TopBit(column), Divisor(column))
  }

  /** The division from step `column` on; `Reduce(x, 0)` leaves the remainder of a 31-bit `x`. */
  function Reduce(m: Remainder, column: bv32): Remainder
    requires column <= 21
    decreases 21 - column
  {
    if column == 21 then m else Reduce(DivStep(m, column), column + 1)
  }

  /** The remainder of a 31-bit word under division by the generator. */
  function Syndrome(x: bv32): Remainder
  {
    Reduce(Remainder(x), 0)
  }

  /** The ten check bits of a body. */
  function CrcOf(msg: bv32): (r: bv32)
    ensures r < 0x400
  {
    Syndrome(Dividend(msg)).bits & 0x3FF
  }

  function Plus(m: Remainder, r: bv32): Remainder
  {
    Remainder(m.bits ^ r)
  }

  // Small bit-vector facts, each proved on its own; the proofs below only
  // chain them together.

  lemma SubtractSet(m: Remainder, top: bv32, den: bv32)
    requires m.bits & top != 0
    ensures Subtract(m, top, den) == Remainder(m.bits ^ den)
  {
  }

  lemma SubtractClear(m: Remainder, top: bv32, den: bv32)
    requires m.bits & top == 0
    ensures Subtract(m, top, den) == m
  {
  }

  lemma MaskPlus(x: Remainder, r: bv32, top: bv32)
    requires r & top == 0
    ensures Plus(x, r).bits & top == x.bits & top
  {
  }

  lemma SwapPlus(x: Remainder, r: bv32, den: bv32)
    ensures Plus(x, r).bits ^ den == (x.bits ^ den) ^ r
  {
  }

  lemma PlusSet(x: Remainder, r: bv32, top: bv32, den: bv32)
    requires x.bits & top != 0
    ensures Plus(Subtract(x, top, den), r) == Remainder((x.bits ^ den) ^ r)
  {
  }

  lemma PlusClear(x: Remainder, r: bv32, top: bv32, den: bv32)
    requires x.bits & top == 0
    ensures Plus(Subtract(x, top, den), r) == Plus(x, r)
  {
  }

  lemma LowXorClear(x: Remainder, r: bv32, top: bv32, den: bv32)
    requires r & top == 0 && x.bits & top == 0
    ensures Subtract(Plus(x, r), top, den) == Plus(Subtract(x, top, den), r)
  {
    MaskPlus(x, r, top);
    SubtractClear(Plus(x, r), top, den);
    PlusClear(x, r, top, den);
  }

  lemma LowXorSet(x: Remainder, r: bv32, top: bv32, den: bv32)
    requires r & top == 0 && x.bits & top != 0
    ensures Subtract(Plus(x, r), top, den) == Plus(Subtract(x, top, den), r)
  {
    MaskPlus(x, r, top);
    SwapPlus(x, r, den);
    SubtractSet(Plus(x, r), top, den);
    PlusSet(x, r, top, den);
  }

  /** Bits that the tested bit does not cover pass through a subtraction unchanged. */
  lemma SubtractLowXor(x: Remainder, r: bv32, top: bv32, den: bv32)
    requires r & top == 0
    ensures Subtract(Plus(x, r), top, den) == Plus(Subtract(x, top, den), r)
  {
    if x.bits & top == 0 {
      LowXorClear(x, r, top, den);
    } else {
      LowXorSet(x, r, top, den);
    }
  }

  lemma TopBitAbove(column: bv32, r: bv32)
    requires column <= 20 && r < 0x400
    ensures r & TopBit(column) == 0
  {
  }

  /** The division is linear in the ten low bits: they ride through every step. */
  lemma {:induction false} ReduceLowXor(x: Remainder, r: bv32, column: bv32)
    requires column <= 21 && r < 0x400
    ensures Reduce(Plus(x, r), column) == Plus(Reduce(x, column), r)
    decreases 21 - column
  {
    if column < 21 {
      TopBitAbove(column, r);
      SubtractLowXor(x, r, TopBit(column), Divisor(column));
      ReduceLowXor(DivStep(x, column), r, column + 1);
    }
  }

  lemma StepClears(x: bv32, column: bv32)
    requires column <= 20 && x >> (31 - column) == 0
    ensures DivStep(Remainder(x), column).bits >> (30 - column) == 0
  {
  }

  /** Every step clears the bit it tests, so a 31-bit dividend leaves a remainder below 2^10. */
  lemma {:induction false} ReduceBelow(x: Remainder, column: bv32)
    requires column <= 21 && x.bits >> (31 - column) == 0
    ensures Reduce(x, column).bits < 0x400
    decreases 21 - column
  {
    if column < 21 {
      StepClears(x.bits, column);
      ReduceBelow(DivStep(x, column), column + 1);
    } else {
      assert x.bits >> 10 == 0;
    }
  }

  /** The body moved up past the ten check-bit places. */
  function Dividend(msg: bv32): bv32
  {
    msg << 10
  }

  /** The 31-bit word [body][r]. */
  function Join(msg: bv32, r: bv32): bv32
  {
    Dividend(msg) | r
  }

  lemma DividendFits(msg: bv32)
    requires msg < 0x20_0000
    ensures Dividend(msg) >> 31 == 0
  {
  }

  lemma JoinIsXor(msg: bv32, r: bv32)
    requires r < 0x400
    ensures Join(msg, r) == Dividend(msg) ^ r
  {
  }

  lemma LowMask(x: bv32)
    requires x < 0x400
    ensures x & 0x3FF == x
  {
  }

  /** For a 21-bit body the check bits are the whole remainder, with nothing masked away. */
  lemma CrcIsRemainder(msg: bv32)
    requires msg < 0x20_0000
    ensures CrcOf(msg) == Syndrome(Dividend(msg)).bits
  {
    DividendFits(msg);
    ReduceBelow(Remainder(Dividend(msg)), 0);
    LowMask(Syndrome(Dividend(msg)).bits);
  }

  /** The remainder is linear in the ten low bits of the dividend. */
  lemma SyndromeLowXor(x: bv32, r: bv32)
    requires r < 0x400
    ensures Syndrome(x ^ r) == Plus(Syndrome(x), r)
  {
    ReduceLowXor(Remainder(x), r, 0);
    assert Plus(Remainder(x), r) == Remainder(x ^ r);
  }

  lemma PlusZero(m: Remainder, r: bv32)
    ensures Plus(m, r) == Remainder(0) <==> m.bits == r
  {
  }

  lemma SyndromeOfJoin(msg: bv32, r: bv32)
    requires r < 0x400
    ensures Syndrome(Join(msg, r)) == Plus(Syndrome(Dividend(msg)), r)
  {
    JoinIsXor(msg, r);
    SyndromeLowXor(Dividend(msg), r);
  }

  /**
   * The check bits are the only ten-bit value that makes the 31-bit word
   * [body][check bits] divisible by the generator.
   */
  lemma CrcUnique(msg: bv32, r: bv32)
    requires msg < 0x20_0000 && r < 0x400
    ensures Syndrome(Join(msg, r)) == Remainder(0) <==> r == CrcOf(msg)
  {
    SyndromeOfJoin(msg, r);
    PlusZero(Syndrome(Dividend(msg)), r);
    CrcIsRemainder(msg);
  }

  /** The word [body][check bits] leaves zero remainder. */
  lemma CrcDivides(msg: bv32)
    requires msg < 0x20_0000
    ensures Syndrome(Join(msg, CrcOf(msg))) == Remainder(0)
  {
    CrcUnique(msg, CrcOf(msg));
  }

  lemma TestedBit(m: bv32, column: bv32)
    requires column <= 20
    ensures ((m >> (30 - column)) & 1 != 0) == (m & TopBit(column) != 0)
  {
  }

  lemma TakenStep(m: bv32, column: bv32)
    requires column <= 20 && (m >> (30 - column)) & 1 != 0
    ensures DivStep(Remainder(m), column) == Remainder(m ^ Divisor(column))
  {
    TestedBit(m, column);
    SubtractSet(Remainder(m), TopBit(column), Divisor(column));
  }

  lemma SkippedStep(m: bv32, column: bv32)
    requires column <= 20 && (m >> (30 - column)) & 1 == 0
    ensures DivStep(Remainder(m), column) == Remainder(m)
  {
    TestedBit(m, column);
    SubtractClear(Remainder(m), TopBit(column), Divisor(column));
  }

  lemma DivisorNext(column: bv32)
    requires column < 20
    ensures Divisor(column) >> 1 == Divisor(column + 1)
  {
  }

  /** pocsag_crc: the division loop, column by column. */
  method Crc(inputMsg: bv32) returns (crc: bv32)
    ensures crc == CrcOf(inputMsg)
    ensures inputMsg < 0x20_0000 ==> Syndrome(Join(inputMsg, crc)) == Remainder(0)
  {
    var denominator: bv32 := GENERATOR << 20;
    var msg: bv32 := inputMsg << 10;
    var column: bv32 := 0;
    while column <= 20
      invariant column <= 21
      invariant column <= 20 ==> denominator == Divisor(column)
      invariant Reduce(Remainder(msg), column) == Syndrome(Dividend(inputMsg))
      decreases 21 - column
    {
      var msgBit := (msg >> (30 - column)) & 1;
      if msgBit != 0 {
        TakenStep(msg, column);
        msg := msg ^ denominator;
      } else {
        SkippedStep(msg, column);
      }
      if column < 20 {
        DivisorNext(column);
      }
      denominator := denominator >> 1;
      column := column + 1;
    }
    crc := msg & 0x3FF;
    if inputMsg < 0x20_0000 {
      CrcDivides(inputMsg);
    }
  }

  // ---------------------------------------------------------------------
  // Parity
  // ---------------------------------------------------------------------

  /** The number of set bits among the low `n` bits of `x`. */
  function Ones(x: bv32, n: bv32): nat
    requires n <= 32
    decreases n
  {
    if n == 0 then 0 else (if x & 1 == 1 then 1 else 0) + Ones(x >> 1, n - 1)
  }

  lemma LowBit(x: bv32, q: bv32)
    requires q < 2
    ensures (x & 1) ^ q < 2
    ensures ((x & 1) ^ q == 1) == ((x & 1 == 1) != (q == 1))
  {
  }

  /** The xor of the low `n` bits of `x`: 1 exactly when an odd number of them are set. */
  function ParityOf(x: bv32, n: bv32): (p: bv32)
    requires n <= 32
    ensures p < 2
    ensures p == 1 <==> Ones(x, n) % 2 == 1
    decreases n
  {
    if n == 0 then 0
    else
      var rest := ParityOf(x >> 1, n - 1);
      LowBit(x, rest);
      (x & 1) ^ rest
  }

  lemma XorAssoc(a: bv32, b: bv32, c: bv32)
    ensures (a ^ b) ^ c == a ^ (b ^ c)
  {
  }

  lemma UnfoldParity(y: bv32, n: bv32)
    requires 1 <= n <= 32
    ensures ParityOf(y, n) == (y & 1) ^ ParityOf(y >> 1, n - 1)
  {
  }

  lemma ParityShift(p: bv32, y: bv32, n: bv32)
    requires 1 <= n <= 32
    ensures (p ^ (y & 1)) ^ ParityOf(y >> 1, n - 1) == p ^ ParityOf(y, n)
  {
    UnfoldParity(y, n);
    XorAssoc(p, y & 1, ParityOf(y >> 1, n - 1));
  }

  /** The loop of pocsag_parity from accumulator `p` with `n` bits of `y` still to read. */
  function ParityFold(p: bv32, y: bv32, n: bv32): bv32
    requires n <= 32
    decreases n
  {
    if n == 0 then p else ParityFold(p ^ (y & 1), y >> 1, n - 1)
  }

  /** The loop computes the accumulator xor the parity of what is left. */
  lemma {:induction false} FoldIsParity(p: bv32, y: bv32, n: bv32)
    requires n <= 32
    ensures ParityFold(p, y, n) == p ^ ParityOf(y, n)
    decreases n
  {
    if n == 0 {
      assert p ^ 0 == p;
    } else {
      FoldIsParity(p ^ (y & 1), y >> 1, n - 1);
      ParityShift(p, y, n);
    }
  }

  /** pocsag_parity: xor the 32 bits of `x` one at a time. */
  method Parity(x: bv32) returns (p: bv32)
    ensures p == ParityOf(x, 32)
    ensures p < 2 && (p == 1 <==> Ones(x, 32) % 2 == 1)
  {
    p := 0;
    var y := x;
    var i: bv32 := 0;
    while i < 32
      invariant i <= 32
      invariant ParityFold(p, y, 32 - i) == ParityFold(0, x, 32)
      decreases 32 - i
    {
      p := p ^ (y & 1);
      y := y >> 1;
      i := i + 1;
    }
    FoldIsParity(0, x, 32);
  }

  // ---------------------------------------------------------------------
  // Codewords
  // ---------------------------------------------------------------------

  /** A 31-bit word with the bit `p` appended below it. */
  function Append(f: bv32, p: bv32): bv32
  {
    (f << 1) | p
  }

  /** pocsag_encode_codeword: [body][check bits][parity]. */
  function EncodeCodeword(msg: bv32): bv32
  {
    var full := Join(msg, CrcOf(msg));
    Append(full, ParityOf(full, 32))
  }

  /** The 31 bits above the parity bit. */
  function Stripped(w: bv32): bv32
  {
    w >> 1
  }

  function ParityBitOf(w: bv32): bv32
  {
    w & 1
  }

  /** Bits 31..11: the 21-bit body. */
  function BodyOf(w: bv32): bv32
  {
    w >> 11
  }

  /** Bits 10..1: the check bits. */
  function CheckBitsOf(w: bv32): bv32
  {
    (w >> 1) & 0x3FF
  }

  /** What a receiver checks: the 32 bits xor to zero and the 31 above the parity bit divide evenly. */
  predicate IsCodeword(w: bv32)
  {
    ParityOf(w, 32) == 0 && Syndrome(Stripped(w)) == Remainder(0)
  }

  lemma JoinFields(msg: bv32, r: bv32)
    requires msg < 0x20_0000 && r < 0x400
    ensures Join(msg, r) >> 31 == 0
    ensures Join(msg, r) >> 10 == msg
    ensures Join(msg, r) & 0x3FF == r
  {
  }

  lemma AppendFields(f: bv32, p: bv32)
    requires f >> 31 == 0 && p < 2
    ensures Stripped(Append(f, p)) == f
    ensures ParityBitOf(Append(f, p)) == p
  {
  }

  lemma StrippedFields(w: bv32)
    ensures BodyOf(w) == Stripped(w) >> 10
    ensures CheckBitsOf(w) == Stripped(w) & 0x3FF
    ensures Stripped(w) >> 31 == 0
  {
  }

  lemma StrippedFits(w: bv32)
    ensures Stripped(w) >> 31 == 0
  {
  }

  lemma SplitWord(w: bv32)
    ensures ParityBitOf(w) < 2
    ensures Append(Stripped(w), ParityBitOf(w)) == w
  {
  }

  lemma SplitFull(f: bv32)
    requires f >> 31 == 0
    ensures f >> 10 < 0x20_0000 && f & 0x3FF < 0x400
    ensures Join(f >> 10, f & 0x3FF) == f
  {
  }

  lemma ShiftShift(y: bv32, n: bv32)
    requires 1 <= n <= 31
    ensures (y >> 1) >> (n - 1) == y >> n
  {
  }

  lemma ParityOfZero(n: bv32)
    requires n <= 32
    ensures ParityOf(0, n) == 0
  {
  }

  /** A zero bit above the low `n` does not change the parity. */
  lemma {:induction false} ParityHigh(y: bv32, n: bv32)
    requires n <= 31 && y >> n == 0
    ensures ParityOf(y, n + 1) == ParityOf(y, n)
    decreases n
  {
    if n == 0 {
      assert y == 0;
      ParityOfZero(1);
    } else {
      ShiftShift(y, n);
      ParityHigh(y >> 1, n - 1);
      UnfoldParity(y, n);
      UnfoldParity(y, n + 1);
    }
  }

  /** The parity of a word: its parity bit xor the parity of the 31 bits above it. */
  lemma ParityOfWord(w: bv32)
    ensures ParityOf(w, 32) == ParityBitOf(w) ^ ParityOf(Stripped(w), 32)
  {
    StrippedFits(w);
    UnfoldParity(w, 32);
    ParityHigh(Stripped(w), 31);
  }

  /** Field layout of a codeword built from a 21-bit body. */
  lemma CodewordLayout(msg: bv32)
    requires msg < 0x20_0000
    ensures BodyOf(EncodeCodeword(msg)) == msg
    ensures CheckBitsOf(EncodeCodeword(msg)) == CrcOf(msg)
    ensures Stripped(EncodeCodeword(msg)) == Join(msg, CrcOf(msg))
    ensures ParityBitOf(EncodeCodeword(msg)) == ParityOf(Join(msg, CrcOf(msg)), 32)
  {
    var full := Join(msg, CrcOf(msg));
    JoinFields(msg, CrcOf(msg));
    AppendFields(full, ParityOf(full, 32));
    StrippedFields(EncodeCodeword(msg));
  }

  lemma XorSelf(a: bv32)
    ensures a ^ a == 0
  {
  }

  lemma XorZero(a: bv32, b: bv32)
    requires a ^ b == 0
    ensures a == b
  {
  }

  /** Even parity, stated as a count of set bits. */
  lemma EvenParityMeaning(w: bv32)
    ensures ParityOf(w, 32) == 0 <==> Ones(w, 32) % 2 == 0
  {
  }

  /** A codeword built from a 21-bit body xors to zero over all 32 bits. */
  lemma CodewordParityZero(msg: bv32)
    requires msg < 0x20_0000
    ensures ParityOf(EncodeCodeword(msg), 32) == 0
  {
    CodewordLayout(msg);
    ParityOfWord(EncodeCodeword(msg));
    XorSelf(ParityOf(Join(msg, CrcOf(msg)), 32));
  }

  /** A codeword built from a 21-bit body has an even number of set bits. */
  lemma CodewordEvenParity(msg: bv32)
    requires msg < 0x20_0000
    ensures Ones(EncodeCodeword(msg), 32) % 2 == 0
  {
    CodewordParityZero(msg);
    EvenParityMeaning(EncodeCodeword(msg));
  }

  /** A codeword built from a 21-bit body passes both receiver checks. */
  lemma EncodedIsCodeword(msg: bv32)
    requires msg < 0x20_0000
    ensures IsCodeword(EncodeCodeword(msg))
  {
    CodewordLayout(msg);
    CodewordParityZero(msg);
    CrcDivides(msg);
  }

  /** The check bits of a valid codeword are those of its body. */
  lemma ValidCheckBits(w: bv32)
    requires Syndrome(Stripped(w)) == Remainder(0)
    ensures BodyOf(w) < 0x20_0000
    ensures Join(BodyOf(w), CrcOf(BodyOf(w))) == Stripped(w)
  {
    StrippedFields(w);
    SplitFull(Stripped(w));
    CrcUnique(BodyOf(w), CheckBitsOf(w));
  }

  /** The parity bit of a word with even parity is the parity of the 31 bits above it. */
  lemma ValidParityBit(w: bv32)
    requires ParityOf(w, 32) == 0
    ensures ParityBitOf(w) == ParityOf(Stripped(w), 32)
  {
    ParityOfWord(w);
    XorZero(ParityBitOf(w), ParityOf(Stripped(w), 32));
  }

  /** A valid codeword is determined by its body: re-encoding the body gives it back. */
  lemma CodewordUnique(w: bv32)
    requires IsCodeword(w)
    ensures BodyOf(w) < 0x20_0000
    ensures EncodeCodeword(BodyOf(w)) == w
  {
    ValidCheckBits(w);
    ValidParityBit(w);
    SplitWord(w);
  }

  // ---------------------------------------------------------------------
  // Frames
  // ---------------------------------------------------------------------

  /** pocsag_address_offset: words to skip after SYNC so the address lands in frame `address & 7`. */
  function AddressOffset(address: bv32): (r: nat)
    ensures r % 2 == 0 && r <= 14
    ensures r / 2 == (address & 7) as int
  {
    (address & 7) as int * FRAME_SIZE
  }
}
