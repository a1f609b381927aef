/**
 * Assembly of a complete POCSAG transmission: preamble, one SYNC word,
 * IDLE words up to the frame of the address, the address codeword, the
 * message codewords, an IDLE end marker and IDLE padding up to a batch
 * boundary (pocsag_encode_transmission, pocsag_encode_message).
 */
module Transmission {
  import opened Codeword
  import opened Packing
  import opened Alphanumeric
  import opened Numeric
  import opened Wrappers

  /** 576 preamble bits, sent as 18 words of alternating ones and zeros. */
  const PREAMBLE_BITS: nat := 576
  const PREAMBLE_WORDS: nat := PREAMBLE_BITS / 32
  const PREAMBLE_WORD: bv32 := 0xAAAA_AAAA

  const FLAG_ADDRESS: bv32 := 0

  const FUNCTION_TONE: bv32 := 0
  const FUNCTION_NUMERIC: bv32 := 1
  const FUNCTION_ALPHANUMERIC: bv32 := 3

  /** A batch on the air: the SYNC word and 16 codewords. */
  const BATCH_WORDS: nat := 17

  // ---------------------------------------------------------------------
  // The layout
  // ---------------------------------------------------------------------

  function Repeat(w: bv32, n: nat): (ws: seq<bv32>)
    ensures |ws| == n
    ensures forall i :: 0 <= i < n ==> ws[i] == w
  {
    seq(n, _ => w)
  }

  /** The preamble is sent only with the first repeat. */
  function Preamble(repeatIndex: int): (ws: seq<bv32>)
    ensures |ws| == if repeatIndex == 0 then PREAMBLE_WORDS else 0
  {
    if repeatIndex == 0 then Repeat(PREAMBLE_WORD, PREAMBLE_WORDS) else []
  }

  /** The 21-bit address body: the address without its frame bits, then the two function bits. */
  function AddressBody(address: bv32, func: bv32): bv32
  {
    ((address >> 3) << 2) | (func & 3) | FLAG_ADDRESS
  }

  function AddressCodeword(address: bv32, func: bv32): bv32
  {
    EncodeCodeword(AddressBody(address, func))
  }

  /** The batch position of the first message word: just after the address codeword. */
  function MessageOffset(address: bv32): (off: bv32)
    ensures off < BATCH_SIZE
  {
    (address & 7) * 2 + 1
  }

  /** The message offset is the number of words in the batch before the first message word. */
  lemma OffsetValue(address: bv32)
    ensures MessageOffset(address) as int == AddressOffset(address) + 1
  {
  }

  /** Tone pages carry no message; function 1 is numeric; every other function is sent as text. */
  function MessageWords(address: bv32, func: bv32, message: seq<bv8>, msbFirst: bool): seq<bv32>
  {
    if func == FUNCTION_TONE then []
    else if func == FUNCTION_NUMERIC then NumericOutput(MessageOffset(address), message)
    else AsciiOutput(MessageOffset(address), message, msbFirst)
  }

  /**
   * Everything from the first SYNC word to the end-of-message IDLE word:
   * `prefix` IDLE words, the address codeword `aw`, the message words `m`.
   */
  function Content(prefix: nat, aw: bv32, m: seq<bv32>): (c: seq<bv32>)
    ensures |c| == prefix + 3 + |m|
  {
    [SYNC] + Repeat(IDLE, prefix) + [aw] + m + [IDLE]
  }

  /** The IDLE words added after `written` words; a whole batch of them when `written` is already aligned. */
  function PaddingLength(written: nat): (n: nat)
    ensures 0 < n <= BATCH_WORDS
  {
    BATCH_WORDS - written % BATCH_WORDS
  }

  /** The transmission built around its content. */
  function Layout(repeatIndex: int, prefix: nat, aw: bv32, m: seq<bv32>): seq<bv32>
  {
    var content := Content(prefix, aw, m);
    Preamble(repeatIndex) + content + Repeat(IDLE, PaddingLength(|content|))
  }

  function Transmission(repeatIndex: int, address: bv32, func: bv32, message: seq<bv8>, msbFirst: bool)
    : seq<bv32>
  {
    Layout(repeatIndex, AddressOffset(address), AddressCodeword(address, func),
           MessageWords(address, func, message, msbFirst))
  }

  // ---------------------------------------------------------------------
  // Properties of the layout
  // ---------------------------------------------------------------------

  /** The transmission starts with 18 preamble words exactly on the first repeat. */
  lemma PreambleIffFirst(repeatIndex: int, prefix: nat, aw: bv32, m: seq<bv32>)
    ensures var t := Layout(repeatIndex, prefix, aw, m);
      (PREAMBLE_WORDS <= |t| && forall i :: 0 <= i < PREAMBLE_WORDS ==> t[i] == PREAMBLE_WORD)
      <==> repeatIndex == 0
  {
    var t := Layout(repeatIndex, prefix, aw, m);
    var content := Content(prefix, aw, m);
    if repeatIndex != 0 {
      assert t[0] == content[0] == SYNC;
    }
  }

  /**
   * After the preamble the transmission is a whole, non-zero number of
   * batches: the content rounded up to the next batch boundary, plus one
   * more batch of IDLE words when the content already ends on one.
   */
  lemma BatchMultiple(repeatIndex: int, prefix: nat, aw: bv32, m: seq<bv32>)
    ensures var n := prefix + 3 + |m|;
      |Layout(repeatIndex, prefix, aw, m)| == |Preamble(repeatIndex)| + BATCH_WORDS * (n / BATCH_WORDS + 1)
    ensures var batches := |Layout(repeatIndex, prefix, aw, m)| - |Preamble(repeatIndex)|;
      batches > 0 && batches % BATCH_WORDS == 0
    ensures (prefix + 3 + |m|) % BATCH_WORDS == 0 ==>
      |Layout(repeatIndex, prefix, aw, m)| == |Preamble(repeatIndex)| + prefix + 3 + |m| + BATCH_WORDS
  {
    var n := |Content(prefix, aw, m)|;
    assert |Layout(repeatIndex, prefix, aw, m)| == |Preamble(repeatIndex)| + n + PaddingLength(n);
    RoundUp(n);
  }

  lemma RoundUp(n: nat)
    ensures n + PaddingLength(n) == BATCH_WORDS * (n / BATCH_WORDS + 1)
    ensures (n + PaddingLength(n)) % BATCH_WORDS == 0
    ensures n % BATCH_WORDS == 0 ==> PaddingLength(n) == BATCH_WORDS
  {
    var q := n / BATCH_WORDS;
    assert n == BATCH_WORDS * q + n % BATCH_WORDS;
    Multiple17(q + 1);
  }

  lemma Multiple17(k: int)
    ensures (BATCH_WORDS * k) % BATCH_WORDS == 0
  {
  }

  /** Word by word: SYNC, the frame-aligning IDLE words, the address codeword, the message, the IDLE marker. */
  lemma ContentLayout(prefix: nat, aw: bv32, m: seq<bv32>)
    ensures var c := Content(prefix, aw, m);
      && c[0] == SYNC
      && (forall k :: 1 <= k <= prefix ==> c[k] == IDLE)
      && c[prefix + 1] == aw
      && c[prefix + 2..prefix + 2 + |m|] == m
      && c[|c| - 1] == IDLE
  {
    var head := [SYNC] + Repeat(IDLE, prefix) + [aw];
    var c := Content(prefix, aw, m);
    assert c == head + m + [IDLE];
    assert |head| == prefix + 2;
  }

  /** The same layout in the whole transmission, after the preamble, followed by nothing but IDLE words. */
  lemma LayoutWords(repeatIndex: int, prefix: nat, aw: bv32, m: seq<bv32>)
    ensures var t := Layout(repeatIndex, prefix, aw, m);
      var p := |Preamble(repeatIndex)|;
      && p + prefix + 3 + |m| <= |t|
      && t[p] == SYNC
      && (forall k :: p + 1 <= k <= p + prefix ==> t[k] == IDLE)
      && t[p + prefix + 1] == aw
      && t[p + prefix + 2..p + prefix + 2 + |m|] == m
      && (forall k :: p + prefix + 2 + |m| <= k < |t| ==> t[k] == IDLE)
  {
    var t := Layout(repeatIndex, prefix, aw, m);
    var pre := Preamble(repeatIndex);
    var c := Content(prefix, aw, m);
    var pad := Repeat(IDLE, PaddingLength(|c|));
    var p := |pre|;
    ContentLayout(prefix, aw, m);
    ThreeParts(pre, c, pad, t, prefix + 2, prefix + 2 + |m|);
  }

  /** Indexing into `t == pre + c + pad`. */
  lemma ThreeParts(pre: seq<bv32>, c: seq<bv32>, pad: seq<bv32>, t: seq<bv32>, i: nat, j: nat)
    requires t == pre + c + pad && i <= j <= |c|
    ensures forall k :: |pre| <= k < |pre| + |c| ==> t[k] == c[k - |pre|]
    ensures forall k :: |pre| + |c| <= k < |t| ==> t[k] == pad[k - |pre| - |c|]
    ensures t[|pre| + i..|pre| + j] == c[i..j]
  {
  }

  /** The last word is always IDLE. */
  lemma EndsWithIdle(repeatIndex: int, prefix: nat, aw: bv32, m: seq<bv32>)
    ensures var t := Layout(repeatIndex, prefix, aw, m);
      0 < |t| && t[|t| - 1] == IDLE
  {
    var c := Content(prefix, aw, m);
    assert 0 < PaddingLength(|c|);
  }

  /**
   * The layout of pocsag_encode_transmission: the preamble on the first
   * repeat only, then SYNC, AddressOffset(address) IDLE words, the address
   * codeword, the message words, and IDLE words up to and including the
   * last word, in a whole number of batches.
   */
  lemma TransmissionLayout(repeatIndex: int, address: bv32, func: bv32, message: seq<bv8>, msbFirst: bool)
    ensures var t := Transmission(repeatIndex, address, func, message, msbFirst);
      var p := |Preamble(repeatIndex)|;
      var prefix := AddressOffset(address);
      var m := MessageWords(address, func, message, msbFirst);
      && (p == PREAMBLE_WORDS <==> repeatIndex == 0)
      && (forall i :: 0 <= i < p ==> t[i] == PREAMBLE_WORD)
      && t[p] == SYNC
      && (forall k :: p + 1 <= k <= p + prefix ==> t[k] == IDLE)
      && t[p + prefix + 1] == AddressCodeword(address, func)
      && t[p + prefix + 2..p + prefix + 2 + |m|] == m
      && (forall k :: p + prefix + 2 + |m| <= k < |t| ==> t[k] == IDLE)
      && |t| == p + BATCH_WORDS * ((prefix + 3 + |m|) / BATCH_WORDS + 1)
  {
    LayoutShape(repeatIndex, AddressOffset(address), AddressCodeword(address, func),
                MessageWords(address, func, message, msbFirst));
  }

  /** LayoutWords and BatchMultiple together, with the preamble words. */
  lemma LayoutShape(repeatIndex: int, prefix: nat, aw: bv32, m: seq<bv32>)
    ensures var t := Layout(repeatIndex, prefix, aw, m);
      var p := |Preamble(repeatIndex)|;
      && (p == PREAMBLE_WORDS <==> repeatIndex == 0)
      && (forall i :: 0 <= i < p ==> t[i] == PREAMBLE_WORD)
      && t[p] == SYNC
      && (forall k :: p + 1 <= k <= p + prefix ==> t[k] == IDLE)
      && t[p + prefix + 1] == aw
      && t[p + prefix + 2..p + prefix + 2 + |m|] == m
      && (forall k :: p + prefix + 2 + |m| <= k < |t| ==> t[k] == IDLE)
      && |t| == p + BATCH_WORDS * ((prefix + 3 + |m|) / BATCH_WORDS + 1)
  {
    var t := Layout(repeatIndex, prefix, aw, m);
    var pre := Preamble(repeatIndex);
    LayoutWords(repeatIndex, prefix, aw, m);
    BatchMultiple(repeatIndex, prefix, aw, m);
    assert forall i :: 0 <= i < |pre| ==> t[i] == pre[i];
  }

  /**
   * A tone page is SYNC, the frame-aligning IDLE words and the address
   * codeword, then IDLE words only: one batch, or two when the address is
   * in the last frame (the content then fills the first batch exactly).
   */
  lemma ToneTransmission(repeatIndex: int, address: bv32, message: seq<bv8>, msbFirst: bool)
    ensures MessageWords(address, FUNCTION_TONE, message, msbFirst) == []
    ensures var t := Transmission(repeatIndex, address, FUNCTION_TONE, message, msbFirst);
      var p := |Preamble(repeatIndex)|;
      && |t| - p == (if address & 7 == 7 then 2 * BATCH_WORDS else BATCH_WORDS)
      && forall k :: p + AddressOffset(address) + 2 <= k < |t| ==> t[k] == IDLE
  {
    assert MessageWords(address, FUNCTION_TONE, message, msbFirst) == [];
    FrameSeven(address);
    ToneLayout(repeatIndex, AddressOffset(address), AddressCodeword(address, FUNCTION_TONE));
  }

  lemma FrameSeven(address: bv32)
    ensures AddressOffset(address) <= 14
    ensures AddressOffset(address) == 14 <==> address & 7 == 7
  {
  }

  lemma ToneLayout(repeatIndex: int, prefix: nat, aw: bv32)
    requires prefix <= 14
    ensures var t := Layout(repeatIndex, prefix, aw, []);
      var p := |Preamble(repeatIndex)|;
      && |t| - p == (if prefix == 14 then 2 * BATCH_WORDS else BATCH_WORDS)
      && forall k :: p + prefix + 2 <= k < |t| ==> t[k] == IDLE
  {
    LayoutWords(repeatIndex, prefix, aw, []);
    BatchMultiple(repeatIndex, prefix, aw, []);
  }

  /**
   * Within the message, a word is a SYNC word exactly when its position,
   * counted from the first SYNC word, is a multiple of 17: the encoders'
   * SYNC words continue the batch structure opened by the first one.
   */
  lemma MessageSyncAligned(repeatIndex: int, address: bv32, func: bv32, message: seq<bv8>, msbFirst: bool)
    ensures var t := Transmission(repeatIndex, address, func, message, msbFirst);
      var p := |Preamble(repeatIndex)|;
      var prefix := AddressOffset(address);
      var m := MessageWords(address, func, message, msbFirst);
      forall k :: prefix + 2 <= k < prefix + 2 + |m| ==>
        (t[p + k] == SYNC <==> k % BATCH_WORDS == 0)
  {
    var m := MessageWords(address, func, message, msbFirst);
    OffsetValue(address);
    MessageSyncs(address, func, message, msbFirst);
    LayoutSyncs(repeatIndex, AddressOffset(address), AddressCodeword(address, func), m,
                MessageOffset(address) as int);
  }

  /** The `n` words after the address codeword at `p + prefix + 1` in `t` are SYNC exactly at the batch starts. */
  predicate SyncsAt(t: seq<bv32>, p: nat, prefix: nat, n: nat)
  {
    p + prefix + 2 + n <= |t|
    && forall k :: prefix + 2 <= k < prefix + 2 + n ==> (t[p + k] == SYNC <==> k % BATCH_WORDS == 0)
  }

  /** SYNC words placed by batch position within `m` stay placed by batch position within the transmission. */
  lemma LayoutSyncs(repeatIndex: int, prefix: nat, aw: bv32, m: seq<bv32>, o: int)
    requires o == prefix + 1
    requires SyncPlaced(m, o)
    ensures SyncsAt(Layout(repeatIndex, prefix, aw, m), |Preamble(repeatIndex)|, prefix, |m|)
  {
    var t := Layout(repeatIndex, prefix, aw, m);
    var pre := Preamble(repeatIndex);
    var c := Content(prefix, aw, m);
    ContentLayout(prefix, aw, m);
    MiddleSlice(pre, c, Repeat(IDLE, PaddingLength(|c|)), t, prefix + 2, prefix + 2 + |m|);
    ShiftedSyncs(t, |pre|, prefix, m, o, |pre| + (prefix + 2), |pre| + (prefix + 2 + |m|));
  }

  lemma MiddleSlice(pre: seq<bv32>, c: seq<bv32>, pad: seq<bv32>, t: seq<bv32>, i: nat, j: nat)
    requires t == pre + c + pad && i <= j <= |c|
    ensures t[|pre| + i..|pre| + j] == c[i..j]
  {
  }

  /** SYNC placement carries over to the words `m` found at `p + prefix + 2` in `t`. */
  lemma ShiftedSyncs(t: seq<bv32>, p: nat, prefix: nat, m: seq<bv32>, o: int, a: nat, b: nat)
    requires o == prefix + 1 && a == p + prefix + 2 && b == a + |m| && b <= |t|
    requires t[a..b] == m && SyncPlaced(m, o)
    ensures SyncsAt(t, p, prefix, |m|)
  {
    forall k | prefix + 2 <= k < prefix + 2 + |m|
      ensures t[p + k] == SYNC <==> k % BATCH_WORDS == 0
    {
      var j := k - prefix - 2;
      assert t[p + k] == m[j];
      assert o + 1 + j == k;
    }
  }

  /** The encoders' SYNC placement, for the message offset of `address`. */
  lemma MessageSyncs(address: bv32, func: bv32, message: seq<bv8>, msbFirst: bool)
    ensures SyncPlaced(MessageWords(address, func, message, msbFirst), MessageOffset(address) as int)
  {
    var off := MessageOffset(address);
    if func == FUNCTION_NUMERIC {
      var m := NumericOutput(off, message);
      NumericSyncs(off, message, m);
      assert MessageWords(address, func, message, msbFirst) == m;
    } else if func != FUNCTION_TONE {
      var m := AsciiOutput(off, message, msbFirst);
      AsciiSyncs(off, message, msbFirst, m);
      assert MessageWords(address, func, message, msbFirst) == m;
    }
  }

  lemma NumericSyncs(off: bv32, message: seq<bv8>, m: seq<bv32>)
    requires off < BATCH_SIZE && m == NumericOutput(off, message)
    ensures SyncPlaced(m, off as int)
  {
    NumericOutputShape(off, message);
  }

  lemma AsciiSyncs(off: bv32, message: seq<bv8>, msbFirst: bool, m: seq<bv32>)
    requires off < BATCH_SIZE && m == AsciiOutput(off, message, msbFirst)
    ensures SyncPlaced(m, off as int)
  {
    AsciiOutputShape(off, message, msbFirst);
  }

  /**
   * For a 21-bit address the address codeword is a valid codeword with the
   * message flag clear, carrying the address without its three frame bits
   * and the two function bits.
   */
  lemma AddressFields(address: bv32, func: bv32)
    requires address < 0x20_0000
    ensures IsCodeword(AddressCodeword(address, func))
    ensures !IsMessageWord(AddressCodeword(address, func))
    ensures BodyOf(AddressCodeword(address, func)) >> 2 == address >> 3
    ensures BodyOf(AddressCodeword(address, func)) & 3 == func & 3
  {
    var body := AddressBody(address, func);
    BodyFields(address, func);
    CodewordLayout(body);
    EncodedIsCodeword(body);
  }

  lemma BodyFields(address: bv32, func: bv32)
    requires address < 0x20_0000
    ensures AddressBody(address, func) < 0x20_0000
    ensures AddressBody(address, func) & FLAG_MESSAGE == 0
    ensures AddressBody(address, func) >> 2 == address >> 3
    ensures AddressBody(address, func) & 3 == func & 3
  {
  }

  // ---------------------------------------------------------------------
  // The encoder
  // ---------------------------------------------------------------------

  /** Two consecutive writes into `a` from index 0 are one write of both runs. */
  lemma SpliceJoin(a: seq<bv32>, s: seq<bv32>, t: seq<bv32>)
    requires |s| + |t| <= |a|
    ensures Splice(Splice(a, 0, s), |s|, t) == Splice(a, 0, s + t)
  {
    var left := Splice(Splice(a, 0, s), |s|, t);
    var right := Splice(a, 0, s + t);
    assert forall k :: 0 <= k < |a| ==> left[k] == right[k];
  }

  /** Writes `n` copies of `w` after the words already produced (the three constant-word loops). */
  method WriteRun(out: array<bv32>, at: nat, numWordsWritten: nat, w: bv32, n: nat,
                  ghost original: seq<bv32>, ghost produced: seq<bv32>)
    returns (written: nat, ghost grown: seq<bv32>)
    requires at + |produced| + n <= |original|
    requires numWordsWritten == |produced| && out[..] == Splice(original, at, produced)
    modifies out
    ensures grown == produced + Repeat(w, n)
    ensures written == |grown| && out[..] == Splice(original, at, grown)
  {
    written, grown := numWordsWritten, produced;
    var i := 0;
    while i < n
      invariant 0 <= i <= n
      invariant grown == produced + Repeat(w, i)
      invariant written == |grown| && out[..] == Splice(original, at, grown)
    {
      written, grown := WriteWord(out, at, written, w, original, grown);
      assert Repeat(w, i) + [w] == Repeat(w, i + 1);
      i := i + 1;
    }
  }

  /** The transmission cut where the encoder's steps meet: the words up to the address codeword, the message, the rest. */
  lemma LayoutParts(repeatIndex: int, prefix: nat, aw: bv32, head: seq<bv32>, m: seq<bv32>)
    requires head == Preamble(repeatIndex) + [SYNC] + Repeat(IDLE, prefix) + [aw]
    ensures Layout(repeatIndex, prefix, aw, m)
      == head + m + [IDLE] + Repeat(IDLE, PaddingLength(|head| + |m| + 1 - |Preamble(repeatIndex)|))
  {
    var content := Content(prefix, aw, m);
    assert Preamble(repeatIndex) + content == head + m + [IDLE];
  }

  /** The transmission as the encoder writes it: the header up to the address codeword, the message, the trailer. */
  lemma TransmissionParts(repeatIndex: int, address: bv32, func: bv32, message: seq<bv8>, msbFirst: bool,
                          head: seq<bv32>)
    requires head == Preamble(repeatIndex) + [SYNC] + Repeat(IDLE, AddressOffset(address))
                     + [AddressCodeword(address, func)]
    ensures var m := MessageWords(address, func, message, msbFirst);
      Transmission(repeatIndex, address, func, message, msbFirst)
        == head + m + [IDLE] + Repeat(IDLE, PaddingLength(|head + m| + 1 - |Preamble(repeatIndex)|))
  {
    var m := MessageWords(address, func, message, msbFirst);
    LayoutParts(repeatIndex, AddressOffset(address), AddressCodeword(address, func), head, m);
  }

  /** pocsag_encode_transmission: fills `out` from index 0 and returns the number of words. */
  method EncodeTransmission(repeatIndex: int, address: bv32, func: bv32, message: seq<bv8>,
                            msbFirst: bool, out: array<bv32>)
    returns (total: nat)
    requires |Transmission(repeatIndex, address, func, message, msbFirst)| <= out.Length
    modifies out
    ensures total == |Transmission(repeatIndex, address, func, message, msbFirst)|
    ensures out[..] == Splice(old(out[..]), 0, Transmission(repeatIndex, address, func, message, msbFirst))
  {
    ghost var original := out[..];
    ghost var m := MessageWords(address, func, message, msbFirst);
    ghost var expected := Preamble(repeatIndex) + [SYNC] + Repeat(IDLE, AddressOffset(address))
                          + [AddressCodeword(address, func)];
    TransmissionParts(repeatIndex, address, func, message, msbFirst, expected);

    var batchStart;
    total, batchStart := WriteFront(repeatIndex, address, func, message, msbFirst, out, original, expected);
    ghost var produced;
    total, produced := WriteTrailer(out, total, batchStart, original, expected + m);
    SameLayout(Transmission(repeatIndex, address, func, message, msbFirst), produced, expected, m,
               batchStart);
  }

  /** The header and the message words: everything up to the end-of-message IDLE word. */
  method WriteFront(repeatIndex: int, address: bv32, func: bv32, message: seq<bv8>, msbFirst: bool,
                    out: array<bv32>, ghost original: seq<bv32>, ghost expected: seq<bv32>)
    returns (total: nat, batchStart: nat)
    requires out[..] == original
    requires expected == Preamble(repeatIndex) + [SYNC] + Repeat(IDLE, AddressOffset(address))
                         + [AddressCodeword(address, func)]
    requires |expected + MessageWords(address, func, message, msbFirst)| <= |original|
    modifies out
    ensures total == |expected + MessageWords(address, func, message, msbFirst)|
    ensures out[..] == Splice(original, 0, expected + MessageWords(address, func, message, msbFirst))
    ensures batchStart == |Preamble(repeatIndex)|
  {
    ghost var head;
    total, batchStart, head := WriteHeader(repeatIndex, address, func, out, original);
    var msgWords := WriteMessage(address, func, message, msbFirst, out, total, original, head);
    total := total + msgWords;
  }

  /** The words written and the transmission are built from equal parts. */
  lemma SameLayout(t: seq<bv32>, produced: seq<bv32>, expected: seq<bv32>, m: seq<bv32>, batchStart: nat)
    requires batchStart <= |expected|
    requires t == expected + m + [IDLE] + Repeat(IDLE, PaddingLength(|expected + m| + 1 - batchStart))
    requires produced == expected + m + [IDLE] + Repeat(IDLE, PaddingLength(|expected + m| + 1 - batchStart))
    ensures produced == t
  {
  }

  /** The end-of-message IDLE word and the IDLE padding up to a batch boundary counted from `batchStart`. */
  method WriteTrailer(out: array<bv32>, numWordsWritten: nat, batchStart: nat, ghost original: seq<bv32>,
                      ghost produced: seq<bv32>)
    returns (total: nat, ghost grown: seq<bv32>)
    requires batchStart <= |produced|
    requires |produced| + 1 + PaddingLength(|produced| + 1 - batchStart) <= |original|
    requires numWordsWritten == |produced| && out[..] == Splice(original, 0, produced)
    modifies out
    ensures grown == produced + [IDLE] + Repeat(IDLE, PaddingLength(|produced| + 1 - batchStart))
    ensures total == |grown| && out[..] == Splice(original, 0, grown)
  {
    total, grown := WriteWord(out, 0, numWordsWritten, IDLE, original, produced);
    var written := total - batchStart;
    var padding := BATCH_WORDS - written % BATCH_WORDS;
    total, grown := WriteRun(out, 0, total, IDLE, padding, original, grown);
  }

  /** The words up to the address codeword: the preamble on the first repeat, SYNC, IDLE words, the address codeword. */
  method WriteHeader(repeatIndex: int, address: bv32, func: bv32, out: array<bv32>, ghost original: seq<bv32>)
    returns (total: nat, batchStart: nat, ghost head: seq<bv32>)
    requires out[..] == original
    requires |Preamble(repeatIndex)| + AddressOffset(address) + 2 <= out.Length
    modifies out
    ensures head == Preamble(repeatIndex) + [SYNC] + Repeat(IDLE, AddressOffset(address))
                    + [AddressCodeword(address, func)]
    ensures total == |head| && out[..] == Splice(original, 0, head)
    ensures batchStart == |Preamble(repeatIndex)|
  {
    head := [];
    SpliceEmpty(original, 0);
    total := 0;
    if repeatIndex == 0 {
      total, head := WriteRun(out, 0, total, PREAMBLE_WORD, PREAMBLE_WORDS, original, head);
    }
    assert head == Preamble(repeatIndex);
    batchStart := total;

    total, head := WriteWord(out, 0, total, SYNC, original, head);
    var prefixLength := AddressOffset(address);
    total, head := WriteRun(out, 0, total, IDLE, prefixLength, original, head);
    var addressWord := AddressBody(address, func);
    total, head := WriteWord(out, 0, total, EncodeCodeword(addressWord), original, head);
  }

  /** The message words, chosen by the function code, written after the words `produced`. */
  method WriteMessage(address: bv32, func: bv32, message: seq<bv8>, msbFirst: bool, out: array<bv32>, at: nat,
                      ghost original: seq<bv32>, ghost produced: seq<bv32>)
    returns (msgWords: nat)
    requires |produced| + |MessageWords(address, func, message, msbFirst)| <= |original|
    requires at == |produced| && out[..] == Splice(original, 0, produced)
    modifies out
    ensures msgWords == |MessageWords(address, func, message, msbFirst)|
    ensures out[..] == Splice(original, 0, produced + MessageWords(address, func, message, msbFirst))
  {
    ghost var m := MessageWords(address, func, message, msbFirst);
    msgWords := 0;
    if func == FUNCTION_TONE {
      assert m == [];
      SpliceEmpty(out[..], at);
    } else if func == FUNCTION_NUMERIC {
      assert m == NumericOutput(MessageOffset(address), message);
      msgWords := EncodeNumeric(MessageOffset(address), message, out, at);
    } else {
      assert m == AsciiOutput(MessageOffset(address), message, msbFirst);
      msgWords := EncodeAscii(MessageOffset(address), message, msbFirst, out, at);
    }
    SpliceJoin(original, produced, m);
  }

  /**
   * pocsag_encode_message: a first-repeat alphanumeric transmission; a
   * missing message or a missing buffer yields 0 and writes nothing.
   */
  method EncodeMessage(capcode: bv32, message: Option<seq<bv8>>, msbFirst: bool, out: array?<bv32>)
    returns (total: nat)
    requires out != null && message.Some? ==>
      |Transmission(0, capcode, FUNCTION_ALPHANUMERIC, message.value, msbFirst)| <= out.Length
    modifies out
    ensures message.None? || out == null ==> total == 0
    ensures message.None? && out != null ==> out[..] == old(out[..])
    ensures message.Some? && out != null ==>
      && total == |Transmission(0, capcode, FUNCTION_ALPHANUMERIC, message.value, msbFirst)|
      && out[..] == Splice(old(out[..]), 0, Transmission(0, capcode, FUNCTION_ALPHANUMERIC, message.value, msbFirst))
  {
    if message.None? || out == null {
      return 0;
    }
    total := EncodeTransmission(0, capcode, FUNCTION_ALPHANUMERIC, message.value, msbFirst, out);
  }
}
