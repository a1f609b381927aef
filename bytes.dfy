/**
 * Serialisation of codewords for the radio: each 32-bit word becomes four
 * bytes, most significant first (pocsag_words_to_bytes), and the preamble
 * is 72 bytes of 0xAA (pocsag_generate_preamble).
 */
module Bytes {
  import opened Transmission

  const PREAMBLE_BYTE: bv8 := 0xAA
  const PREAMBLE_BYTE_COUNT: nat := 72

  // ---------------------------------------------------------------------
  // One word
  // ---------------------------------------------------------------------

  /** The four bytes of `w`, most significant first. */
  function WordBytes(w: bv32): (bs: seq<bv8>)
    ensures |bs| == 4
  {
    [((w >> 24) & 0xFF) as bv8, ((w >> 16) & 0xFF) as bv8, ((w >> 8) & 0xFF) as bv8, (w & 0xFF) as bv8]
  }

  /** The word whose bytes, most significant first, are `b0`, `b1`, `b2`, `b3`. */
  function Reassemble(b0: bv8, b1: bv8, b2: bv8, b3: bv8): bv32
  {
    (b0 as bv32 << 24) | (b1 as bv32 << 16) | (b2 as bv32 << 8) | b3 as bv32
  }

  /** Reassembling the four bytes of a word gives the word back. */
  lemma WordRoundTrip(w: bv32)
    ensures var bs := WordBytes(w);
      Reassemble(bs[0], bs[1], bs[2], bs[3]) == w
  {
  }

  /** Every four bytes are the bytes of exactly one word. */
  lemma BytesRoundTrip(b0: bv8, b1: bv8, b2: bv8, b3: bv8)
    ensures WordBytes(Reassemble(b0, b1, b2, b3)) == [b0, b1, b2, b3]
  {
  }

  // ---------------------------------------------------------------------
  // Sequences of words
  // ---------------------------------------------------------------------

  function BytesUpTo(ws: seq<bv32>, n: nat): (bs: seq<bv8>)
    requires n <= |ws|
    ensures |bs| == 4 * n
  {
    if n == 0 then [] else BytesUpTo(ws, n - 1) + WordBytes(ws[n - 1])
  }

  /** The bytes sent for the words `ws`. */
  function BytesOf(ws: seq<bv32>): (bs: seq<bv8>)
    ensures |bs| == 4 * |ws|
  {
    BytesUpTo(ws, |ws|)
  }

  /** The first `n` words read back from the bytes `bs`. */
  function FromBytesUpTo(bs: seq<bv8>, n: nat): (ws: seq<bv32>)
    requires 4 * n <= |bs|
    ensures |ws| == n
  {
    if n == 0 then []
    else FromBytesUpTo(bs, n - 1) + [Reassemble(bs[4 * n - 4], bs[4 * n - 3], bs[4 * n - 2], bs[4 * n - 1])]
  }

  function FromBytes(bs: seq<bv8>): (ws: seq<bv32>)
    requires |bs| % 4 == 0
    ensures |ws| == |bs| / 4
  {
    FromBytesUpTo(bs, |bs| / 4)
  }

  /** Bytes `4i` to `4i + 3` are word `i`, most significant byte first. */
  lemma {:induction false} BytesUpToAt(ws: seq<bv32>, n: nat, i: nat)
    requires i < n <= |ws|
    ensures BytesUpTo(ws, n)[4 * i..4 * i + 4] == WordBytes(ws[i])
  {
    var before := BytesUpTo(ws, n - 1);
    assert BytesUpTo(ws, n) == before + WordBytes(ws[n - 1]);
    if i < n - 1 {
      BytesUpToAt(ws, n - 1, i);
      assert BytesUpTo(ws, n)[4 * i..4 * i + 4] == before[4 * i..4 * i + 4];
    } else {
      assert |before| == 4 * i;
    }
  }

  lemma BytesAt(ws: seq<bv32>)
    ensures forall i :: 0 <= i < |ws| ==> BytesOf(ws)[4 * i..4 * i + 4] == WordBytes(ws[i])
  {
    forall i | 0 <= i < |ws|
      ensures BytesOf(ws)[4 * i..4 * i + 4] == WordBytes(ws[i])
    {
      BytesUpToAt(ws, |ws|, i);
    }
  }

  /** Reading words back only looks at the bytes they came from. */
  lemma {:induction false} FromBytesExtend(xs: seq<bv8>, ys: seq<bv8>, n: nat)
    requires 4 * n <= |xs|
    ensures FromBytesUpTo(xs + ys, n) == FromBytesUpTo(xs, n)
  {
    if n > 0 {
      FromBytesExtend(xs, ys, n - 1);
      var all := xs + ys;
      assert all[4 * n - 4] == xs[4 * n - 4] && all[4 * n - 3] == xs[4 * n - 3];
      assert all[4 * n - 2] == xs[4 * n - 2] && all[4 * n - 1] == xs[4 * n - 1];
    }
  }

  lemma {:induction false} FromBytesUpToRoundTrip(ws: seq<bv32>, n: nat)
    requires n <= |ws|
    ensures FromBytesUpTo(BytesUpTo(ws, n), n) == ws[..n]
  {
    if n > 0 {
      var before := BytesUpTo(ws, n - 1);
      var last := WordBytes(ws[n - 1]);
      assert BytesUpTo(ws, n) == before + last;
      FromBytesUpToRoundTrip(ws, n - 1);
      FromBytesExtend(before, last, n - 1);
      var all := before + last;
      assert all[4 * n - 4..4 * n] == last;
      WordRoundTrip(ws[n - 1]);
      assert ws[..n] == ws[..n - 1] + [ws[n - 1]];
    }
  }

  /** The words can be read back from their bytes. */
  lemma RoundTrip(ws: seq<bv32>)
    ensures FromBytes(BytesOf(ws)) == ws
  {
    FromBytesUpToRoundTrip(ws, |ws|);
    assert |BytesOf(ws)| / 4 == |ws|;
  }

  // ---------------------------------------------------------------------
  // The preamble
  // ---------------------------------------------------------------------

  function PreambleBytes(): (bs: seq<bv8>)
    ensures |bs| == PREAMBLE_BYTE_COUNT
    ensures forall i :: 0 <= i < |bs| ==> bs[i] == PREAMBLE_BYTE
  {
    seq(PREAMBLE_BYTE_COUNT, _ => PREAMBLE_BYTE)
  }

  lemma {:induction false} RepeatBytes(ws: seq<bv32>, n: nat)
    requires n <= |ws|
    requires forall i :: 0 <= i < |ws| ==> ws[i] == PREAMBLE_WORD
    ensures forall j :: 0 <= j < 4 * n ==> BytesUpTo(ws, n)[j] == PREAMBLE_BYTE
  {
    if n > 0 {
      RepeatBytes(ws, n - 1);
      assert WordBytes(ws[n - 1]) == [PREAMBLE_BYTE, PREAMBLE_BYTE, PREAMBLE_BYTE, PREAMBLE_BYTE];
    }
  }

  /** The 18 preamble words a transmission starts with serialise to the 72 preamble bytes. */
  lemma PreambleWordsAreBytes()
    ensures BytesOf(Preamble(0)) == PreambleBytes()
  {
    RepeatBytes(Preamble(0), PREAMBLE_WORDS);
  }

  // ---------------------------------------------------------------------
  // The serialising loops
  // ---------------------------------------------------------------------

  /** pocsag_words_to_bytes: the first `wordCount` words of `words` into `bytes`; returns the byte count. */
  method WordsToBytes(words: array<bv32>, wordCount: nat, bytes: array<bv8>) returns (n: nat)
    requires wordCount <= words.Length && 4 * wordCount <= bytes.Length
    modifies bytes
    ensures n == 4 * wordCount
    ensures bytes[..n] == BytesOf(words[..wordCount])
    ensures bytes[n..] == old(bytes[n..])
  {
    ghost var ws := words[..wordCount];
    var i := 0;
    while i < wordCount
      invariant 0 <= i <= wordCount
      invariant bytes[..4 * i] == BytesUpTo(ws, i)
      invariant bytes[4 * wordCount..] == old(bytes[4 * wordCount..])
    {
      ghost var before := bytes[..4 * i];
      PutWord(bytes, i * 4, words[i]);
      assert bytes[..4 * i + 4] == before + WordBytes(ws[i]);
      i := i + 1;
    }
    n := wordCount * 4;
  }

  /** The body of the pocsag_words_to_bytes loop: the bytes of `word` at `at`. */
  method PutWord(bytes: array<bv8>, at: nat, word: bv32)
    requires at + 4 <= bytes.Length
    modifies bytes
    ensures bytes[..at] == old(bytes[..at])
    ensures bytes[at..at + 4] == WordBytes(word)
    ensures bytes[at + 4..] == old(bytes[at + 4..])
  {
    bytes[at + 0] := ((word >> 24) & 0xFF) as bv8;
    bytes[at + 1] := ((word >> 16) & 0xFF) as bv8;
    bytes[at + 2] := ((word >> 8) & 0xFF) as bv8;
    bytes[at + 3] := (word & 0xFF) as bv8;
  }

  /** pocsag_generate_preamble: 72 bytes of 0xAA; returns 72. */
  method GeneratePreamble(bytes: array<bv8>) returns (n: nat)
    requires PREAMBLE_BYTE_COUNT <= bytes.Length
    modifies bytes
    ensures n == PREAMBLE_BYTE_COUNT
    ensures bytes[..n] == PreambleBytes()
    ensures bytes[n..] == old(bytes[n..])
  {
    var i := 0;
    while i < 72
      invariant 0 <= i <= 72
      invariant forall j :: 0 <= j < i ==> bytes[j] == PREAMBLE_BYTE
      invariant bytes[72..] == old(bytes[72..])
    {
      bytes[i] := 0xAA;
      i := i + 1;
    }
    n := 72;
  }
}
