/**
 * pocsag_encode_ascii: seven bits per character, twenty bits per message
 * codeword, a SYNC word whenever a batch fills up.
 *
 * A string is the sequence of its bytes before the terminating NUL.  The
 * characters are taken as unsigned bytes; only their low seven bits are
 * sent, either from bit 0 up (LSB-first, the usual POCSAG order) or from
 * bit 6 down (MSB-first).  A final partial word is filled with zero bits.
 */
module Alphanumeric {
  import opened Codeword
  import opened Packing

  const BITS_PER_CHAR: bv8 := 7

  /** The `i`-th bit sent for character `c`. */
  function CharBit(c: bv8, msbFirst: bool, i: bv8): bool
    requires i < BITS_PER_CHAR
  {
    if msbFirst then (c >> (6 - i)) & 1 == 1 else (c >> i) & 1 == 1
  }

  /** The first `n` bits sent for character `c`. */
  function CharBitsUpTo(c: bv8, msbFirst: bool, n: bv8): (bs: seq<bool>)
    requires n <= BITS_PER_CHAR
    ensures |bs| == n as int
    decreases n
  {
    if n == 0 then [] else CharBitsUpTo(c, msbFirst, n - 1) + [CharBit(c, msbFirst, n - 1)]
  }

  function CharBits(c: bv8, msbFirst: bool): (bs: seq<bool>)
    ensures |bs| == 7
  {
    CharBitsUpTo(c, msbFirst, BITS_PER_CHAR)
  }

  /** The bits of the first `n` characters of `str`, character after character. */
  function AsciiPrefix(str: seq<bv8>, n: nat, msbFirst: bool): (bs: seq<bool>)
    requires n <= |str|
    ensures |bs| == 7 * n
  {
    if n == 0 then [] else AsciiPrefix(str, n - 1, msbFirst) + CharBits(str[n - 1], msbFirst)
  }

  /** The bits of a whole string. */
  function AsciiStream(str: seq<bv8>, msbFirst: bool): (bs: seq<bool>)
    ensures |bs| == 7 * |str|
  {
    AsciiPrefix(str, |str|, msbFirst)
  }

  /** The stream filled up with zero bits to whole words. */
  function Padded(bits: seq<bool>): (p: seq<bool>)
    ensures |p| % BITS_PER_WORD == 0 && bits <= p
  {
    bits + Zeros(PadLength(|bits|))
  }

  /** What pocsag_encode_ascii writes for `str` from batch position `off`. */
  function AsciiOutput(off: bv32, str: seq<bv8>, msbFirst: bool): seq<bv32>
  {
    Interleave(Words(Padded(AsciiStream(str, msbFirst))), off)
  }

  // ---------------------------------------------------------------------
  // Properties
  // ---------------------------------------------------------------------

  lemma {:induction false} CharBitsUpToAt(c: bv8, msbFirst: bool, n: bv8, i: bv8)
    requires i < n <= BITS_PER_CHAR
    ensures CharBitsUpTo(c, msbFirst, n)[i as int] == CharBit(c, msbFirst, i)
    decreases n
  {
    if i < n - 1 {
      CharBitsUpToAt(c, msbFirst, n - 1, i);
    }
  }

  /** LSB-first sends bit `i` of the character as its `i`-th bit; MSB-first sends them in the reverse order. */
  lemma CharBitOrder(c: bv8, i: bv8)
    requires i < BITS_PER_CHAR
    ensures CharBits(c, false)[i as int] == ((c >> i) & 1 == 1)
    ensures CharBits(c, true)[i as int] == CharBits(c, false)[(6 - i) as int]
  {
    CharBitsUpToAt(c, false, BITS_PER_CHAR, i);
    CharBitsUpToAt(c, true, BITS_PER_CHAR, i);
    CharBitsUpToAt(c, false, BITS_PER_CHAR, 6 - i);
  }

  /** ceil(7 * len / 20) message codewords. */
  lemma AsciiWordCount(str: seq<bv8>, msbFirst: bool)
    ensures |Words(Padded(AsciiStream(str, msbFirst)))| == (7 * |str| + 19) / 20
  {
    PaddedLength(7 * |str|);
  }

  /**
   * From a position inside a batch, the output is the message codewords
   * with one SYNC word per filled batch; every other word is a valid
   * message codeword; and taking the SYNC words out gives the message
   * codewords back.
   */
  lemma AsciiOutputShape(off: bv32, str: seq<bv8>, msbFirst: bool)
    requires off < BATCH_SIZE
    ensures |AsciiOutput(off, str, msbFirst)|
      == (7 * |str| + 19) / 20 + (off as int + (7 * |str| + 19) / 20) / 16
    ensures forall j :: 0 <= j < |AsciiOutput(off, str, msbFirst)| ==>
      (AsciiOutput(off, str, msbFirst)[j] == SYNC <==> (off as int + 1 + j) % 17 == 0)
    ensures forall j :: 0 <= j < |AsciiOutput(off, str, msbFirst)| && AsciiOutput(off, str, msbFirst)[j] != SYNC ==>
      IsMessageWord(AsciiOutput(off, str, msbFirst)[j])
    ensures WithoutSync(AsciiOutput(off, str, msbFirst)) == Words(Padded(AsciiStream(str, msbFirst)))
  {
    var ws := Words(Padded(AsciiStream(str, msbFirst)));
    AsciiWordCount(str, msbFirst);
    WordsAreMessages(Padded(AsciiStream(str, msbFirst)));
    InterleaveLength(ws, off);
    SyncPlacement(ws, off);
    InterleaveWithoutSync(ws, off);
    InterleaveMembers(ws, off);
  }

  // ---------------------------------------------------------------------
  // The encoder
  // ---------------------------------------------------------------------

  /** The encoder's bit arithmetic yields the `i`-th bit sent for `c`. */
  lemma SentBit(c: bv8, msbFirst: bool, i: bv8, bit: bv32)
    requires i < BITS_PER_CHAR
    requires bit == (if msbFirst then ((c >> (6 - i)) & 1) as bv32 else ((c >> i) & 1) as bv32)
    ensures bit == BitValue(CharBit(c, msbFirst, i))
  {
  }

  /** One more bit of character `j` read. */
  lemma NextBit(str: seq<bv8>, j: nat, msbFirst: bool, i: bv8, done: seq<bool>, pend: seq<bool>)
    requires j < |str| && i < BITS_PER_CHAR
    requires done + pend == AsciiPrefix(str, j, msbFirst) + CharBitsUpTo(str[j], msbFirst, i)
    ensures done + (pend + [CharBit(str[j], msbFirst, i)])
      == AsciiPrefix(str, j, msbFirst) + CharBitsUpTo(str[j], msbFirst, i + 1)
    ensures |done| + |pend| + 1 <= |Padded(AsciiStream(str, msbFirst))|
  {
    assert |done + pend| == 7 * j + i as int;
    assert i + 1 != 0 && (i + 1) - 1 == i;
    assert done + (pend + [CharBit(str[j], msbFirst, i)]) == done + pend + [CharBit(str[j], msbFirst, i)];
  }

  /**
   * The encoder after the first `j` characters of `str`: the bits read are
   * their stream, the state is Filling, and `contents`, the array, holds the
   * `numWordsWritten` words produced from `at` on.
   */
  predicate AsciiProgress(off: bv32, str: seq<bv8>, msbFirst: bool, j: nat, at: nat, original: seq<bv32>,
                          contents: seq<bv32>, numWordsWritten: nat, currentWord: bv32, currentNumBits: bv32,
                          wordPosition: bv32, done: seq<bool>, pend: seq<bool>, produced: seq<bv32>)
  {
    && j <= |str| && done + pend == AsciiPrefix(str, j, msbFirst)
    && Filling(off, done, pend, currentWord, currentNumBits, wordPosition, produced)
    && at + |AsciiOutput(off, str, msbFirst)| <= |original| && at + |produced| <= |original|
    && numWordsWritten == |produced| && contents == Splice(original, at, produced)
  }

  /** Before the first character: nothing read, nothing written. */
  lemma AsciiStart(off: bv32, str: seq<bv8>, msbFirst: bool, at: nat, original: seq<bv32>)
    requires at + |AsciiOutput(off, str, msbFirst)| <= |original|
    ensures AsciiProgress(off, str, msbFirst, 0, at, original, original, 0, 0, 0, off, [], [], [])
  {
    SpliceEmpty(original, at);
    FillingStart(off);
  }

  /**
   * The inner loop of pocsag_encode_ascii: the seven bits of character
   * `str[j]`, each pushed as PushBit does.
   */
  method EncodeChar(out: array<bv32>, at: nat, numWordsWritten: nat, currentWord: bv32, currentNumBits: bv32,
                    wordPosition: bv32, c: bv8, msbFirst: bool, ghost off: bv32, ghost str: seq<bv8>, ghost j: nat,
                    ghost original: seq<bv32>, ghost done: seq<bool>, ghost pend: seq<bool>,
                    ghost produced: seq<bv32>)
    returns (written: nat, word: bv32, numBits: bv32, position: bv32,
             ghost done': seq<bool>, ghost pend': seq<bool>, ghost produced': seq<bv32>)
    requires j < |str| && c == str[j]
    requires AsciiProgress(off, str, msbFirst, j, at, original, out[..], numWordsWritten, currentWord,
                           currentNumBits, wordPosition, done, pend, produced)
    modifies out
    ensures AsciiProgress(off, str, msbFirst, j + 1, at, original, out[..], written, word,
                          numBits, position, done', pend', produced')
  {
    ghost var all := Padded(AsciiStream(str, msbFirst));
    written, word, numBits, position := numWordsWritten, currentWord, currentNumBits, wordPosition;
    done', pend', produced' := done, pend, produced;
    var i: bv8 := 0;
    while i < BITS_PER_CHAR
      invariant i <= BITS_PER_CHAR
      invariant done' + pend' == AsciiPrefix(str, j, msbFirst) + CharBitsUpTo(c, msbFirst, i)
      invariant Filling(off, done', pend', word, numBits, position, produced')
      invariant at + |produced'| <= |original|
      invariant written == |produced'| && out[..] == Splice(original, at, produced')
    {
      var bit: bv32 := if msbFirst then ((c >> (6 - i)) & 1) as bv32 else ((c >> i) & 1) as bv32;
      ghost var b := CharBit(c, msbFirst, i);
      SentBit(c, msbFirst, i, bit);
      NextBit(str, j, msbFirst, i, done', pend');
      written, word, numBits, position, done', pend', produced' :=
        PushBit(out, at, written, word, numBits, position, bit, off, original, done', pend', produced', b, all);
      i := i + 1;
    }
  }

  /** pocsag_encode_ascii, writing into `out` from index `at`; returns the number of words written. */
  method EncodeAscii(initialOffset: bv32, str: seq<bv8>, msbFirst: bool, out: array<bv32>, at: nat)
    returns (numWordsWritten: nat)
    requires at + |AsciiOutput(initialOffset, str, msbFirst)| <= out.Length
    modifies out
    ensures numWordsWritten == |AsciiOutput(initialOffset, str, msbFirst)|
    ensures out[..] == Splice(old(out[..]), at, AsciiOutput(initialOffset, str, msbFirst))
  {
    ghost var original := out[..];
    ghost var done: seq<bool> := [];
    ghost var pend: seq<bool> := [];
    ghost var produced: seq<bv32> := [];
    numWordsWritten := 0;
    var currentWord: bv32 := 0;
    var currentNumBits: bv32 := 0;
    var wordPosition: bv32 := initialOffset;
    AsciiStart(initialOffset, str, msbFirst, at, original);
    var j := 0;
    while j < |str|
      invariant AsciiProgress(initialOffset, str, msbFirst, j, at, original, out[..], numWordsWritten,
                              currentWord, currentNumBits, wordPosition, done, pend, produced)
    {
      numWordsWritten, currentWord, currentNumBits, wordPosition, done, pend, produced :=
        EncodeChar(out, at, numWordsWritten, currentWord, currentNumBits, wordPosition, str[j], msbFirst,
                   initialOffset, str, j, original, done, pend, produced);
      j := j + 1;
    }
    numWordsWritten :=
      FinishAscii(out, at, numWordsWritten, currentWord, currentNumBits, wordPosition,
                  initialOffset, str, msbFirst, original, done, pend, produced);
  }

  /** The end of pocsag_encode_ascii: a partial last word is moved up, filled with zero bits and written. */
  method FinishAscii(out: array<bv32>, at: nat, numWordsWritten: nat, currentWord: bv32, currentNumBits: bv32,
                     wordPosition: bv32, ghost off: bv32, ghost str: seq<bv8>, ghost msbFirst: bool,
                     ghost original: seq<bv32>, ghost done: seq<bool>, ghost pend: seq<bool>,
                     ghost produced: seq<bv32>)
    returns (written: nat)
    requires AsciiProgress(off, str, msbFirst, |str|, at, original, out[..], numWordsWritten, currentWord,
                           currentNumBits, wordPosition, done, pend, produced)
    modifies out
    ensures written == |AsciiOutput(off, str, msbFirst)|
    ensures out[..] == Splice(original, at, AsciiOutput(off, str, msbFirst))
  {
    written := numWordsWritten;
    if currentNumBits > 0 {
      var word := currentWord << (20 - currentNumBits);
      AsciiLastWord(off, str, msbFirst, at, original, out[..], numWordsWritten, currentWord, currentNumBits,
                    wordPosition, done, pend, produced, word);
      var position;
      ghost var grown;
      written, position, grown := EmitWord(out, at, written, word, wordPosition, original, produced);
    } else {
      AsciiNoPartial(off, str, msbFirst, at, original, out[..], numWordsWritten, currentWord, currentNumBits,
                     wordPosition, done, pend, produced);
    }
  }

  /** With a partial word pending, its padded codeword (and a SYNC word if due) ends the output. */
  lemma AsciiLastWord(off: bv32, str: seq<bv8>, msbFirst: bool, at: nat, original: seq<bv32>,
                      contents: seq<bv32>, numWordsWritten: nat, currentWord: bv32, currentNumBits: bv32,
                      wordPosition: bv32, done: seq<bool>, pend: seq<bool>, produced: seq<bv32>, last: bv32)
    requires AsciiProgress(off, str, msbFirst, |str|, at, original, contents, numWordsWritten, currentWord,
                           currentNumBits, wordPosition, done, pend, produced)
    requires 0 < currentNumBits && last == currentWord << (20 - currentNumBits)
    ensures AsciiOutput(off, str, msbFirst) == produced + [EncodeCodeword(last | FLAG_MESSAGE)] + TrailingSync(wordPosition)
    ensures at + |produced| + 1 + |TrailingSync(wordPosition)| <= |original|
  {
    ghost var chunk := pend + Zeros(PadLength(|done + pend|));
    LastWord(done, pend, currentNumBits);
    PaddedWord(pend, PadLength(|done + pend|), 20 - currentNumBits, currentWord, last);
    FinishStep(off, done, pend, currentWord, currentNumBits, wordPosition, produced, chunk,
               Padded(AsciiStream(str, msbFirst)), last);
  }

  /** With no partial word pending, the output is complete. */
  lemma AsciiNoPartial(off: bv32, str: seq<bv8>, msbFirst: bool, at: nat, original: seq<bv32>,
                       contents: seq<bv32>, numWordsWritten: nat, currentWord: bv32, currentNumBits: bv32,
                       wordPosition: bv32, done: seq<bool>, pend: seq<bool>, produced: seq<bv32>)
    requires AsciiProgress(off, str, msbFirst, |str|, at, original, contents, numWordsWritten, currentWord,
                           currentNumBits, wordPosition, done, pend, produced)
    requires currentNumBits == 0
    ensures AsciiOutput(off, str, msbFirst) == produced
  {
    assert pend == [];
    assert done == AsciiStream(str, msbFirst) by {
      assert done + pend == done;
    }
    PaddedWhole(done);
  }

  lemma PaddedWhole(bits: seq<bool>)
    requires |bits| % BITS_PER_WORD == 0
    ensures Padded(bits) == bits
  {
    assert Zeros(PadLength(|bits|)) == [];
  }

  /** The zero bits that fill the last word are as many as `20 - numBits`. */
  lemma LastWord(done: seq<bool>, pend: seq<bool>, numBits: bv32)
    requires |done| % BITS_PER_WORD == 0 && 0 < numBits < 20 && numBits as int == |pend|
    ensures (20 - numBits) as int == PadLength(|done + pend|) && 20 - numBits <= 31
    ensures |pend + Zeros(PadLength(|done + pend|))| == BITS_PER_WORD
    ensures Padded(done + pend) == done + (pend + Zeros(PadLength(|done + pend|)))
  {
    RemainingBits(numBits);
    PadAfter(|done|, |pend|);
    assert |done + pend| == |done| + |pend|;
  }

  lemma RemainingBits(numBits: bv32)
    requires 0 < numBits < 20
    ensures (20 - numBits) as int == 20 - numBits as int && 20 - numBits <= 31
  {
  }

  lemma PadAfter(whole: nat, part: nat)
    requires whole % BITS_PER_WORD == 0 && 0 < part < BITS_PER_WORD
    ensures PadLength(whole + part) == BITS_PER_WORD - part
  {
    assert (whole + part) % 20 == part;
  }
}
