/**
 * pocsag_char_to_bcd and pocsag_encode_numeric: four bits per character,
 * twenty bits per message codeword, a SYNC word whenever a batch fills up.
 *
 * Each character becomes a four-bit BCD code, sent from bit 0 up.  A final
 * partial word is filled with whole nibbles of the code 0xC, each sent in
 * the same order, so a numeric pager shows no trailing digits.
 */
module Numeric {
  import opened Codeword
  import opened Packing

  const BITS_PER_DIGIT: bv8 := 4

  /** The code that fills a partial last word. */
  const PAD_BCD: bv8 := 0xC

  /** The code of every character outside the numeric set. */
  const RESERVED_BCD: bv8 := 0xF

  // Character codes (ASCII) of the numeric set.
  const ZERO: bv8 := 0x30
  const NINE: bv8 := 0x39
  const SPACE: bv8 := 0x20
  const UPPER_U: bv8 := 0x55
  const LOWER_U: bv8 := 0x75
  const HYPHEN: bv8 := 0x2D
  const LEFT_BRACKET: bv8 := 0x5B
  const LEFT_PAREN: bv8 := 0x28
  const RIGHT_BRACKET: bv8 := 0x5D
  const RIGHT_PAREN: bv8 := 0x29

  /** pocsag_char_to_bcd: the four-bit code of a character. */
  function CharToBcd(c: bv8): (d: bv8)
    ensures d <= RESERVED_BCD
  {
    if ZERO <= c <= NINE then c - ZERO
    else if c == SPACE then 0xA
    else if c == UPPER_U || c == LOWER_U then 0xB
    else if c == HYPHEN then 0xC
    else if c == LEFT_BRACKET || c == LEFT_PAREN then 0xD
    else if c == RIGHT_BRACKET || c == RIGHT_PAREN then 0xE
    else RESERVED_BCD
  }

  /** The characters a numeric pager can show. */
  predicate IsNumericChar(c: bv8)
  {
    (ZERO <= c <= NINE)
    || c in {SPACE, UPPER_U, LOWER_U, HYPHEN, LEFT_BRACKET, LEFT_PAREN, RIGHT_BRACKET, RIGHT_PAREN}
  }

  /** The character a pager shows for each code but the reserved one. */
  function BcdChar(d: bv8): (c: bv8)
    requires d < RESERVED_BCD
    ensures IsNumericChar(c)
  {
    if d <= 9 then ZERO + d
    else if d == 0xA then SPACE
    else if d == 0xB then UPPER_U
    else if d == 0xC then HYPHEN
    else if d == 0xD then LEFT_BRACKET
    else RIGHT_BRACKET
  }

  /** The character a pager shows for `c`: lower-case u and parentheses appear as U and brackets. */
  function Shown(c: bv8): bv8
  {
    if c == LOWER_U then UPPER_U
    else if c == LEFT_PAREN then LEFT_BRACKET
    else if c == RIGHT_PAREN then RIGHT_BRACKET
    else c
  }

  // ---------------------------------------------------------------------
  // Properties of the code table
  // ---------------------------------------------------------------------

  /** Digits get their value as code. */
  lemma DigitCode(c: bv8)
    requires ZERO <= c <= NINE
    ensures CharToBcd(c) as int == c as int - ZERO as int
  {
  }

  /** Every code but 0xF comes from exactly the characters that show as BcdChar of it. */
  lemma BcdRoundTrip(d: bv8)
    requires d < RESERVED_BCD
    ensures CharToBcd(BcdChar(d)) == d
  {
  }

  /** The reserved code is given to exactly the characters outside the numeric set. */
  lemma ReservedCode(c: bv8)
    ensures CharToBcd(c) == RESERVED_BCD <==> !IsNumericChar(c)
  {
  }

  /** Decoding the code of a numeric character gives the character as shown. */
  lemma BcdDecodes(c: bv8)
    requires IsNumericChar(c)
    ensures CharToBcd(c) < RESERVED_BCD && BcdChar(CharToBcd(c)) == Shown(c)
  {
  }

  // ---------------------------------------------------------------------
  // The bit stream
  // ---------------------------------------------------------------------

  /** The `i`-th bit sent for code `d`, lowest bit first. */
  function DigitBit(d: bv8, i: bv8): bool
    requires i < BITS_PER_DIGIT
  {
    (d >> i) & 1 == 1
  }

  /** The first `n` bits sent for code `d`. */
  function DigitBitsUpTo(d: bv8, n: bv8): (bs: seq<bool>)
    requires n <= BITS_PER_DIGIT
    ensures |bs| == n as int
    decreases n
  {
    if n == 0 then [] else DigitBitsUpTo(d, n - 1) + [DigitBit(d, n - 1)]
  }

  function DigitBits(d: bv8): (bs: seq<bool>)
    ensures |bs| == 4
  {
    DigitBitsUpTo(d, BITS_PER_DIGIT)
  }

  /** The bits of the first `n` characters of `str`. */
  function NumericPrefix(str: seq<bv8>, n: nat): (bs: seq<bool>)
    requires n <= |str|
    ensures |bs| == 4 * n
  {
    if n == 0 then [] else NumericPrefix(str, n - 1) + DigitBits(CharToBcd(str[n - 1]))
  }

  function NumericStream(str: seq<bv8>): (bs: seq<bool>)
    ensures |bs| == 4 * |str|
  {
    NumericPrefix(str, |str|)
  }

  /** `k` padding nibbles. */
  function Fill(k: nat): (bs: seq<bool>)
    ensures |bs| == 4 * k
  {
    if k == 0 then [] else Fill(k - 1) + DigitBits(PAD_BCD)
  }

  /** The stream of `str` followed by as many padding nibbles as fill its last word. */
  function NumericBits(str: seq<bv8>): (bs: seq<bool>)
    ensures |bs| % BITS_PER_WORD == 0 && NumericStream(str) <= bs
  {
    WholeNibbles(4 * |str|);
    NumericStream(str) + Fill(PadLength(4 * |str|) / 4)
  }

  /** What pocsag_encode_numeric writes for `str` from batch position `off`. */
  function NumericOutput(off: bv32, str: seq<bv8>): seq<bv32>
  {
    Interleave(Words(NumericBits(str)), off)
  }

  lemma WholeNibbles(len: nat)
    requires len % 4 == 0
    ensures PadLength(len) % 4 == 0
  {
    var q := len / 4;
    var m := len / 20;
    var r := len % 20;
    assert len == 4 * q;
    assert len == 20 * m + r;
    assert r == 4 * (q - 5 * m);
    Multiple(q - 5 * m);
    Multiple(5 - (q - 5 * m));
  }

  lemma Multiple(x: int)
    ensures (4 * x) % 4 == 0
  {
  }

  // ---------------------------------------------------------------------
  // Properties of the output
  // ---------------------------------------------------------------------

  lemma {:induction false} DigitBitsUpToAt(d: bv8, n: bv8, i: bv8)
    requires i < n <= BITS_PER_DIGIT
    ensures DigitBitsUpTo(d, n)[i as int] == DigitBit(d, i)
    decreases n
  {
    if i < n - 1 {
      DigitBitsUpToAt(d, n - 1, i);
    }
  }

  /** The bits of a code are its bits 0 to 3, in that order. */
  lemma DigitBitOrder(d: bv8, i: bv8)
    requires i < BITS_PER_DIGIT
    ensures DigitBits(d)[i as int] == ((d >> i) & 1 == 1)
  {
    DigitBitsUpToAt(d, BITS_PER_DIGIT, i);
  }

  /** The padding code 0xC is sent as 0, 0, 1, 1. */
  lemma PadBits()
    ensures DigitBits(PAD_BCD) == [false, false, true, true]
  {
    DigitBitOrder(PAD_BCD, 0);
    DigitBitOrder(PAD_BCD, 1);
    DigitBitOrder(PAD_BCD, 2);
    DigitBitOrder(PAD_BCD, 3);
  }

  /** Padding bit `i` is 1 exactly at positions 2 and 3 of each nibble: no padding nibble is zero. */
  lemma {:induction false} FillPattern(k: nat)
    ensures forall i :: 0 <= i < |Fill(k)| ==> (Fill(k)[i] <==> i % 4 >= 2)
    decreases k
  {
    if k > 0 {
      FillPattern(k - 1);
      PadBits();
      var f := Fill(k);
      forall i | 0 <= i < |f|
        ensures f[i] <==> i % 4 >= 2
      {
        if i >= 4 * (k - 1) {
          NibbleIndex(i, k - 1);
          assert f[i] == DigitBits(PAD_BCD)[i - 4 * (k - 1)];
        } else {
          assert f[i] == Fill(k - 1)[i];
        }
      }
    }
  }

  lemma NibbleIndex(i: int, m: int)
    requires 4 * m <= i < 4 * m + 4
    ensures i % 4 == i - 4 * m
  {
  }

  /**
   * A partial last word is filled with whole padding nibbles, fewer than
   * five, up to the word boundary; a stream of whole words gets none.
   */
  lemma NumericPadding(str: seq<bv8>)
    ensures NumericBits(str) == NumericStream(str) + Fill(PadLength(4 * |str|) / 4)
    ensures PadLength(4 * |str|) / 4 < 5 && 4 * (PadLength(4 * |str|) / 4) == PadLength(4 * |str|)
    ensures (4 * |str|) % BITS_PER_WORD == 0 ==> NumericBits(str) == NumericStream(str)
  {
    WholeNibbles(4 * |str|);
  }

  /** ceil(4 * len / 20) message codewords. */
  lemma NumericWordCount(str: seq<bv8>)
    ensures |Words(NumericBits(str))| == (4 * |str| + 19) / 20
  {
    WholeNibbles(4 * |str|);
    PaddedLength(4 * |str|);
  }

  /**
   * From a position inside a batch, the output is the message codewords
   * with one SYNC word per filled batch; every other word is a valid
   * message codeword; and taking the SYNC words out gives the message
   * codewords back.
   */
  lemma NumericOutputShape(off: bv32, str: seq<bv8>)
    requires off < BATCH_SIZE
    ensures |NumericOutput(off, str)| == (4 * |str| + 19) / 20 + (off as int + (4 * |str| + 19) / 20) / 16
    ensures forall j :: 0 <= j < |NumericOutput(off, str)| ==>
      (NumericOutput(off, str)[j] == SYNC <==> (off as int + 1 + j) % 17 == 0)
    ensures forall j :: 0 <= j < |NumericOutput(off, str)| && NumericOutput(off, str)[j] != SYNC ==>
      IsMessageWord(NumericOutput(off, str)[j])
    ensures WithoutSync(NumericOutput(off, str)) == Words(NumericBits(str))
  {
    var ws := Words(NumericBits(str));
    NumericWordCount(str);
    WordsAreMessages(NumericBits(str));
    InterleaveLength(ws, off);
    SyncPlacement(ws, off);
    InterleaveWithoutSync(ws, off);
    InterleaveMembers(ws, off);
  }

  // ---------------------------------------------------------------------
  // The encoder
  // ---------------------------------------------------------------------

  /** The encoder's bit arithmetic yields the `i`-th bit sent for `d`. */
  lemma SentBit(d: bv8, i: bv8, bit: bv32)
    requires i < BITS_PER_DIGIT
    requires bit == ((d >> i) & 1) as bv32
    ensures bit == BitValue(DigitBit(d, i))
  {
  }

  /** One more bit of character `j` read. */
  lemma NextBit(str: seq<bv8>, j: nat, i: bv8, done: seq<bool>, pend: seq<bool>)
    requires j < |str| && i < BITS_PER_DIGIT
    requires done + pend == NumericPrefix(str, j) + DigitBitsUpTo(CharToBcd(str[j]), i)
    ensures done + (pend + [DigitBit(CharToBcd(str[j]), i)])
      == NumericPrefix(str, j) + DigitBitsUpTo(CharToBcd(str[j]), i + 1)
    ensures |done| + |pend| + 1 <= |NumericBits(str)|
  {
    assert |done + pend| == 4 * j + i as int;
    assert i + 1 != 0 && (i + 1) - 1 == i;
    assert done + (pend + [DigitBit(CharToBcd(str[j]), i)]) == done + pend + [DigitBit(CharToBcd(str[j]), i)];
  }

  /**
   * The encoder after the first `j` characters of `str`: the bits read are
   * their stream, the state is Filling, and `contents`, the array, holds the
   * `numWordsWritten` words produced from `at` on.
   */
  predicate NumericProgress(off: bv32, str: seq<bv8>, j: nat, at: nat, original: seq<bv32>,
                            contents: seq<bv32>, numWordsWritten: nat, currentWord: bv32, currentNumBits: bv32,
                            wordPosition: bv32, done: seq<bool>, pend: seq<bool>, produced: seq<bv32>)
  {
    && j <= |str| && done + pend == NumericPrefix(str, j)
    && Filling(off, done, pend, currentWord, currentNumBits, wordPosition, produced)
    && at + |NumericOutput(off, str)| <= |original| && at + |produced| <= |original|
    && numWordsWritten == |produced| && contents == Splice(original, at, produced)
  }

  /** Before the first character: nothing read, nothing written. */
  lemma NumericStart(off: bv32, str: seq<bv8>, at: nat, original: seq<bv32>)
    requires at + |NumericOutput(off, str)| <= |original|
    ensures NumericProgress(off, str, 0, at, original, original, 0, 0, 0, off, [], [], [])
  {
    SpliceEmpty(original, at);
    FillingStart(off);
  }

  /**
   * The inner loop of pocsag_encode_numeric: the four bits of the code of
   * `str[j]`, each pushed as PushBit does.
   */
  method EncodeDigit(out: array<bv32>, at: nat, numWordsWritten: nat, currentWord: bv32, currentNumBits: bv32,
                     wordPosition: bv32, c: bv8, ghost off: bv32, ghost str: seq<bv8>, ghost j: nat,
                     ghost original: seq<bv32>, ghost done: seq<bool>, ghost pend: seq<bool>,
                     ghost produced: seq<bv32>)
    returns (written: nat, word: bv32, numBits: bv32, position: bv32,
             ghost done': seq<bool>, ghost pend': seq<bool>, ghost produced': seq<bv32>)
    requires j < |str| && c == str[j]
    requires NumericProgress(off, str, j, at, original, out[..], numWordsWritten, currentWord,
                             currentNumBits, wordPosition, done, pend, produced)
    modifies out
    ensures NumericProgress(off, str, j + 1, at, original, out[..], written, word,
                            numBits, position, done', pend', produced')
  {
    ghost var all := NumericBits(str);
    var bcd := CharToBcd(c);
    written, word, numBits, position := numWordsWritten, currentWord, currentNumBits, wordPosition;
    done', pend', produced' := done, pend, produced;
    var i: bv8 := 0;
    while i < BITS_PER_DIGIT
      invariant i <= BITS_PER_DIGIT
      invariant done' + pend' == NumericPrefix(str, j) + DigitBitsUpTo(bcd, i)
      invariant Filling(off, done', pend', word, numBits, position, produced')
      invariant at + |produced'| <= |original|
      invariant written == |produced'| && out[..] == Splice(original, at, produced')
    {
      var bit: bv32 := ((bcd >> i) & 1) as bv32;
      ghost var b := DigitBit(bcd, i);
      SentBit(bcd, i, bit);
      NextBit(str, j, i, done', pend');
      written, word, numBits, position, done', pend', produced' :=
        PushBit(out, at, written, word, numBits, position, bit, off, original, done', pend', produced', b, all);
      i := i + 1;
    }
  }

  /** pocsag_encode_numeric, writing into `out` from index `at`; returns the number of words written. */
  method EncodeNumeric(initialOffset: bv32, str: seq<bv8>, out: array<bv32>, at: nat)
    returns (numWordsWritten: nat)
    requires at + |NumericOutput(initialOffset, str)| <= out.Length
    modifies out
    ensures numWordsWritten == |NumericOutput(initialOffset, str)|
    ensures out[..] == Splice(old(out[..]), at, NumericOutput(initialOffset, str))
  {
    ghost var original := out[..];
    ghost var done: seq<bool> := [];
    ghost var pend: seq<bool> := [];
    ghost var produced: seq<bv32> := [];
    numWordsWritten := 0;
    var currentWord: bv32 := 0;
    var currentNumBits: bv32 := 0;
    var wordPosition: bv32 := initialOffset;
    NumericStart(initialOffset, str, at, original);
    var j := 0;
    while j < |str|
      invariant NumericProgress(initialOffset, str, j, at, original, out[..], numWordsWritten,
                                currentWord, currentNumBits, wordPosition, done, pend, produced)
    {
      numWordsWritten, currentWord, currentNumBits, wordPosition, done, pend, produced :=
        EncodeDigit(out, at, numWordsWritten, currentWord, currentNumBits, wordPosition, str[j],
                    initialOffset, str, j, original, done, pend, produced);
      j := j + 1;
    }
    numWordsWritten :=
      FinishNumeric(out, at, numWordsWritten, currentWord, currentNumBits, wordPosition,
                    initialOffset, str, original, done, pend, produced);
  }

  /**
   * The padding loops of pocsag_encode_numeric: `remaining` nibbles of the
   * code 0xC shifted in below the bits `pend` of the current word.
   */
  method PadWord(currentWord: bv32, remaining: bv32, ghost pend: seq<bool>) returns (word: bv32)
    requires currentWord == Pack(pend) && remaining < 5
    ensures word == Pack(pend + Fill(remaining as int))
  {
    word := currentWord;
    var pad: bv32 := 0;
    assert pend + Fill(pad as int) == pend;
    while pad < remaining
      invariant pad <= remaining
      invariant word == Pack(pend + Fill(pad as int))
    {
      word := PadNibble(word, pend + Fill(pad as int));
      FillStep(pad, remaining);
      AppendAssociates(pend, Fill(pad as int), DigitBits(PAD_BCD));
      pad := pad + 1;
    }
  }

  /** The inner padding loop: the four bits of 0xC shifted in below `bits`. */
  method PadNibble(currentWord: bv32, ghost base: seq<bool>) returns (word: bv32)
    requires currentWord == Pack(base)
    ensures word == Pack(base + DigitBits(PAD_BCD))
  {
    word := currentWord;
    ghost var bits := base;
    var i: bv8 := 0;
    while i < BITS_PER_DIGIT
      invariant i <= BITS_PER_DIGIT
      invariant bits == base + DigitBitsUpTo(PAD_BCD, i) && word == Pack(bits)
    {
      var bit: bv32 := ((PAD_BCD >> i) & 1) as bv32;
      SentBit(PAD_BCD, i, bit);
      ShiftedIn(word, bit, DigitBit(PAD_BCD, i));
      PackSnoc(bits, DigitBit(PAD_BCD, i));
      word := (word << 1) | bit;
      NibbleStep(bits, base, i);
      bits := bits + [DigitBit(PAD_BCD, i)];
      i := i + 1;
    }
  }

  lemma NibbleStep(bits: seq<bool>, base: seq<bool>, i: bv8)
    requires i < BITS_PER_DIGIT && bits == base + DigitBitsUpTo(PAD_BCD, i)
    ensures bits + [DigitBit(PAD_BCD, i)] == base + DigitBitsUpTo(PAD_BCD, i + 1)
  {
    assert i + 1 != 0 && (i + 1) - 1 == i;
  }

  lemma FillStep(pad: bv32, remaining: bv32)
    requires pad < remaining < 5
    ensures (pad + 1) as int == pad as int + 1
    ensures Fill((pad + 1) as int) == Fill(pad as int) + DigitBits(PAD_BCD)
  {
  }

  /** The end of pocsag_encode_numeric: a partial last word is padded with 0xC nibbles and written. */
  method FinishNumeric(out: array<bv32>, at: nat, numWordsWritten: nat, currentWord: bv32, currentNumBits: bv32,
                       wordPosition: bv32, ghost off: bv32, ghost str: seq<bv8>,
                       ghost original: seq<bv32>, ghost done: seq<bool>, ghost pend: seq<bool>,
                       ghost produced: seq<bv32>)
    returns (written: nat)
    requires NumericProgress(off, str, |str|, at, original, out[..], numWordsWritten, currentWord,
                             currentNumBits, wordPosition, done, pend, produced)
    modifies out
    ensures written == |NumericOutput(off, str)|
    ensures out[..] == Splice(original, at, NumericOutput(off, str))
  {
    written := numWordsWritten;
    if currentNumBits > 0 {
      var remaining := (20 - currentNumBits) / 4;
      NibblesLeft(done, pend, currentNumBits, str);
      var word := PadWord(currentWord, remaining, pend);
      NumericLastWord(off, str, at, original, out[..], numWordsWritten, currentWord, currentNumBits,
                      wordPosition, done, pend, produced, word);
      var position;
      ghost var grown;
      written, position, grown := EmitWord(out, at, written, word, wordPosition, original, produced);
    } else {
      NumericNoPartial(off, str, at, original, out[..], numWordsWritten, currentWord, currentNumBits,
                       wordPosition, done, pend, produced);
    }
  }

  /** The nibbles left in a partial last word fill it exactly. */
  lemma NibblesLeft(done: seq<bool>, pend: seq<bool>, numBits: bv32, str: seq<bv8>)
    requires done + pend == NumericStream(str)
    requires |done| % BITS_PER_WORD == 0 && 0 < numBits < 20 && numBits as int == |pend|
    ensures (20 - numBits) / 4 < 5
    ensures 4 * ((20 - numBits) / 4) as int == PadLength(4 * |str|)
    ensures |pend + Fill(((20 - numBits) / 4) as int)| == BITS_PER_WORD
  {
    assert |done| + |pend| == 4 * |str|;
    NibblesFit(|done|, |pend|, 4 * |str|, numBits);
    var k := ((20 - numBits) / 4) as int;
    assert |pend + Fill(k)| == |pend| + 4 * k;
  }

  lemma NibblesFit(whole: nat, part: nat, len: nat, numBits: bv32)
    requires whole % 20 == 0 && 0 < numBits < 20 && numBits as int == part && whole + part == len && len % 4 == 0
    ensures (20 - numBits) / 4 < 5 && 4 * ((20 - numBits) / 4) as int == PadLength(len) == 20 - part
  {
    PendNibbles(whole, part, len);
    NibbleCount(numBits, part);
  }

  lemma PendNibbles(whole: nat, part: nat, len: nat)
    requires whole % 20 == 0 && 0 < part < 20 && whole + part == len && len % 4 == 0
    ensures part % 4 == 0 && PadLength(len) == 20 - part
  {
    var q := whole / 20;
    assert whole == 20 * q;
    Remainder20(q, part);
    var r := len / 4;
    assert len == 4 * r;
    assert part == 4 * (r - 5 * q);
  }

  lemma Remainder20(q: int, rest: nat)
    requires rest < 20
    ensures (20 * q + rest) % 20 == rest
  {
  }

  lemma NibbleCount(numBits: bv32, n: nat)
    requires 0 < numBits < 20 && numBits as int == n && n % 4 == 0
    ensures (20 - numBits) / 4 < 5 && 4 * ((20 - numBits) / 4) as int == 20 - n
  {
    assert n == 4 || n == 8 || n == 12 || n == 16;
  }

  /** With a partial word pending, its padded codeword (and a SYNC word if due) ends the output. */
  lemma NumericLastWord(off: bv32, str: seq<bv8>, at: nat, original: seq<bv32>,
                        contents: seq<bv32>, numWordsWritten: nat, currentWord: bv32, currentNumBits: bv32,
                        wordPosition: bv32, done: seq<bool>, pend: seq<bool>, produced: seq<bv32>, last: bv32)
    requires NumericProgress(off, str, |str|, at, original, contents, numWordsWritten, currentWord,
                             currentNumBits, wordPosition, done, pend, produced)
    requires 0 < currentNumBits && last == Pack(pend + Fill(((20 - currentNumBits) / 4) as int))
    ensures NumericOutput(off, str) == produced + [EncodeCodeword(last | FLAG_MESSAGE)] + TrailingSync(wordPosition)
    ensures at + |produced| + 1 + |TrailingSync(wordPosition)| <= |original|
  {
    var k := ((20 - currentNumBits) / 4) as int;
    var chunk := pend + Fill(k);
    NibblesLeft(done, pend, currentNumBits, str);
    LastChunk(str, done, pend, k);
    FinishStep(off, done, pend, currentWord, currentNumBits, wordPosition, produced, chunk, NumericBits(str), last);
  }

  lemma LastChunk(str: seq<bv8>, done: seq<bool>, pend: seq<bool>, k: nat)
    requires done + pend == NumericStream(str) && 4 * k == PadLength(4 * |str|)
    ensures NumericBits(str) == done + (pend + Fill(k))
  {
    Quarter(k, PadLength(4 * |str|));
    assert NumericBits(str) == NumericStream(str) + Fill(k);
    AppendAssociates(done, pend, Fill(k));
  }

  lemma AppendAssociates(a: seq<bool>, b: seq<bool>, c: seq<bool>)
    ensures (a + b) + c == a + (b + c)
  {
  }

  lemma Quarter(k: int, p: int)
    requires 4 * k == p
    ensures p / 4 == k
  {
  }

  /** With no partial word pending, the output is complete. */
  lemma NumericNoPartial(off: bv32, str: seq<bv8>, at: nat, original: seq<bv32>,
                         contents: seq<bv32>, numWordsWritten: nat, currentWord: bv32, currentNumBits: bv32,
                         wordPosition: bv32, done: seq<bool>, pend: seq<bool>, produced: seq<bv32>)
    requires NumericProgress(off, str, |str|, at, original, contents, numWordsWritten, currentWord,
                             currentNumBits, wordPosition, done, pend, produced)
    requires currentNumBits == 0
    ensures NumericOutput(off, str) == produced
  {
    assert pend == [];
    assert done == NumericStream(str) by {
      assert done + pend == done;
    }
    NumericPadding(str);
  }
}
