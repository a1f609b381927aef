/**
 * Packing message bits into POCSAG message codewords and laying those
 * codewords out in batches.
 *
 * A message is first turned into a stream of bits.  Every twenty bits make
 * one message codeword: the bits are shifted in most significant first,
 * the message flag (bit 20 of the body) is set and the body is encoded as
 * a codeword.  A batch holds sixteen codewords after its SYNC word, so each
 * time the running position in the batch reaches sixteen a SYNC word is
 * emitted and the position starts again at zero.
 */
module Packing {
  import opened Codeword

  const BITS_PER_WORD: nat := 20
  const BATCH_SIZE: bv32 := 16

  // ---------------------------------------------------------------------
  // Bits into words
  // ---------------------------------------------------------------------

  function BitValue(b: bool): (v: bv32)
    ensures v < 2
  {
    if b then 1 else 0
  }

  /** Shift one more bit in at the bottom. */
  function Push(w: bv32, b: bool): bv32
  {
    (w << 1) | BitValue(b)
  }

  /** The word the first `n` bits make when shifted in one after another, first bit highest. */
  function PackPrefix(bs: seq<bool>, n: nat): bv32
    requires n <= |bs|
  {
    if n == 0 then 0 else Push(PackPrefix(bs, n - 1), bs[n - 1])
  }

  /** The word all of `bs` make. */
  function Pack(bs: seq<bool>): bv32
  {
    PackPrefix(bs, |bs|)
  }

  lemma PushBound(w: bv32, b: bool, n: bv32)
    requires 1 <= n <= 31 && w >> (n - 1) == 0
    ensures Push(w, b) >> n == 0
  {
  }

  lemma {:induction false} PackPrefixBound(bs: seq<bool>, m: nat, n: bv32)
    requires n <= 31 && n as int == m && m <= |bs|
    ensures PackPrefix(bs, m) >> n == 0
  {
    if m > 0 {
      Predecessor(n, m);
      PackPrefixBound(bs, m - 1, n - 1);
      PushBound(PackPrefix(bs, m - 1), bs[m - 1], n);
    }
  }

  /** `n` bits make a word below 2^n. */
  lemma PackBound(bs: seq<bool>, n: bv32)
    requires n <= 31 && n as int == |bs|
    ensures Pack(bs) >> n == 0
  {
    PackPrefixBound(bs, |bs|, n);
  }

  lemma {:induction false} PackPrefixExtend(xs: seq<bool>, ys: seq<bool>, m: nat)
    requires m <= |xs|
    ensures PackPrefix(xs + ys, m) == PackPrefix(xs, m)
  {
    if m > 0 {
      PackPrefixExtend(xs, ys, m - 1);
      assert (xs + ys)[m - 1] == xs[m - 1];
    }
  }

  /** Shifting one more bit in. */
  lemma PackSnoc(xs: seq<bool>, x: bool)
    ensures Pack(xs + [x]) == Push(Pack(xs), x)
  {
    PackPrefixExtend(xs, [x], |xs|);
    assert (xs + [x])[|xs|] == x;
  }

  /** `n` zero bits. */
  function Zeros(n: nat): (z: seq<bool>)
    ensures |z| == n
  {
    if n == 0 then [] else Zeros(n - 1) + [false]
  }

  lemma PushFalse(w: bv32)
    ensures Push(w, false) == w << 1
  {
  }

  lemma ShiftOnceMore(x: bv32, k: bv32)
    requires 1 <= k <= 31
    ensures (x << (k - 1)) << 1 == x << k
  {
  }

  /** The final partial word is moved up by shifting `k` zero bits in. */
  function ShiftIn(w: bv32, k: bv32): bv32
    requires k <= 31
  {
    w << k
  }

  lemma PushZero(x: bv32, k: bv32)
    requires 1 <= k <= 31
    ensures Push(ShiftIn(x, k - 1), false) == ShiftIn(x, k)
  {
    PushFalse(x << (k - 1));
    ShiftOnceMore(x, k);
  }

  /** Appending `k` zero bits is a shift left by `k`. */
  lemma {:induction false} PackZeros(bs: seq<bool>, n: nat, k: bv32)
    requires k <= 31 && k as int == n
    ensures Pack(bs + Zeros(n)) == ShiftIn(Pack(bs), k)
    decreases n
  {
    if n == 0 {
      assert bs + Zeros(0) == bs;
    } else {
      ZerosSnoc(bs, n);
      PackSnoc(bs + Zeros(n - 1), false);
      Predecessor(k, n);
      PackZeros(bs, n - 1, k - 1);
      PushZero(Pack(bs), k);
    }
  }

  /** Shifting the partial word up by `k` is packing it followed by `k` zero bits. */
  lemma PaddedWord(bs: seq<bool>, n: nat, k: bv32, word: bv32, shifted: bv32)
    requires k <= 31 && k as int == n && word == Pack(bs) && shifted == word << k
    ensures shifted == Pack(bs + Zeros(n))
  {
    assert shifted == ShiftIn(word, k);
    PackZeros(bs, n, k);
  }

  lemma ZerosSnoc(bs: seq<bool>, n: nat)
    requires n > 0
    ensures bs + Zeros(n) == (bs + Zeros(n - 1)) + [false]
  {
  }

  lemma Predecessor(k: bv32, n: nat)
    requires 1 <= k <= 31 && k as int == n
    ensures (k - 1) as int == n - 1
  {
  }

  /** A message codeword: the flag set above twenty data bits. */
  function DataWord(chunk: seq<bool>): bv32
  {
    EncodeCodeword(Pack(chunk) | FLAG_MESSAGE)
  }

  /** The first `n` message codewords of a bit stream, twenty bits each. */
  function WordsUpTo(bits: seq<bool>, n: nat): (ws: seq<bv32>)
    requires 20 * n <= |bits|
    ensures |ws| == n
  {
    if n == 0 then [] else WordsUpTo(bits, n - 1) + [DataWord(Chunk(bits, n - 1))]
  }

  /** The bits of the codeword at index `k`. */
  function Chunk(bits: seq<bool>, k: nat): (chunk: seq<bool>)
    requires 20 * k + 20 <= |bits|
    ensures |chunk| == BITS_PER_WORD
  {
    bits[20 * k..20 * k + 20]
  }

  lemma ChunkExtend(xs: seq<bool>, ys: seq<bool>, k: nat)
    requires 20 * k + 20 <= |xs|
    ensures Chunk(xs + ys, k) == Chunk(xs, k)
  {
  }

  /** The message codewords of a bit stream already cut to whole words. */
  function Words(bits: seq<bool>): (ws: seq<bv32>)
    requires |bits| % BITS_PER_WORD == 0
    ensures |ws| == |bits| / BITS_PER_WORD
  {
    WordsUpTo(bits, |bits| / 20)
  }

  /** The first codewords depend only on the bits they are cut from. */
  lemma {:induction false} WordsUpToExtend(xs: seq<bool>, ys: seq<bool>, n: nat)
    requires 20 * n <= |xs|
    ensures WordsUpTo(xs + ys, n) == WordsUpTo(xs, n)
    decreases n
  {
    if n > 0 {
      WordsUpToExtend(xs, ys, n - 1);
      ChunkExtend(xs, ys, n - 1);
    }
  }

  /** One more whole word of bits adds one codeword at the end. */
  lemma WordsSnoc(done: seq<bool>, chunk: seq<bool>)
    requires |done| % BITS_PER_WORD == 0 && |chunk| == BITS_PER_WORD
    ensures Words(done + chunk) == Words(done) + [DataWord(chunk)]
  {
    var all := done + chunk;
    var m := |done| / 20;
    WholeWords(|done|);
    WordsCount(done, m);
    WordsCount(all, m + 1);
    WordsUpToExtend(done, chunk, m);
    ChunkAt(done, chunk, m);
  }

  lemma WordsCount(bits: seq<bool>, n: nat)
    requires |bits| == 20 * n
    ensures Words(bits) == WordsUpTo(bits, n)
  {
    Twentieth(|bits|, n);
  }

  lemma Twentieth(len: nat, n: nat)
    requires len == 20 * n
    ensures len / 20 == n && len % 20 == 0
  {
  }

  lemma ChunkAt(done: seq<bool>, chunk: seq<bool>, m: nat)
    requires |chunk| == BITS_PER_WORD && |done| == 20 * m
    ensures Chunk(done + chunk, m) == chunk
  {
    assert (done + chunk)[|done|..|done| + 20] == chunk;
  }

  /** How many bits fill up the last, partial word. */
  function PadLength(len: nat): (n: nat)
    ensures n < BITS_PER_WORD && (len + n) % BITS_PER_WORD == 0
  {
    if len % 20 == 0 then 0 else 20 - len % 20
  }

  /** Padding a stream to whole words gives ceil(len / 20) of them. */
  lemma PaddedLength(len: nat)
    ensures (len + PadLength(len)) / BITS_PER_WORD == (len + 19) / 20
  {
  }

  // ---------------------------------------------------------------------
  // Batches
  // ---------------------------------------------------------------------

  /** The batch position after one more codeword: sixteen wraps round to zero. */
  function Advance(pos: bv32): bv32
  {
    if pos + 1 == BATCH_SIZE then 0 else pos + 1
  }

  /** The batch position after `n` codewords, starting from `off`. */
  function Position(n: nat, off: bv32): bv32
  {
    if n == 0 then off else Advance(Position(n - 1, off))
  }

  /** The first `n` message codewords with a SYNC word after each one that fills a batch. */
  function InterleaveUpTo(ws: seq<bv32>, n: nat, off: bv32): seq<bv32>
    requires n <= |ws|
  {
    if n == 0 then [] else InterleaveUpTo(ws, n - 1, off) + [ws[n - 1]] + TrailingSync(Position(n - 1, off))
  }

  /** The message codewords with a SYNC word after each one that fills a batch. */
  function Interleave(ws: seq<bv32>, off: bv32): seq<bv32>
  {
    InterleaveUpTo(ws, |ws|, off)
  }

  /** Word j of `m` is SYNC exactly when it is the first word of a batch, counting `o` words before `m`. */
  predicate SyncPlaced(m: seq<bv32>, o: int)
  {
    forall j :: 0 <= j < |m| ==> (m[j] == SYNC <==> (o + 1 + j) % 17 == 0)
  }

  lemma {:induction false} InterleaveExtend(xs: seq<bv32>, ys: seq<bv32>, n: nat, off: bv32)
    requires n <= |xs|
    ensures InterleaveUpTo(xs + ys, n, off) == InterleaveUpTo(xs, n, off)
    decreases n
  {
    if n > 0 {
      InterleaveExtend(xs, ys, n - 1, off);
    }
  }

  lemma InterleaveSnoc(ws: seq<bv32>, w: bv32, off: bv32)
    ensures Interleave(ws + [w], off) == Interleave(ws, off) + [w] + TrailingSync(Position(|ws|, off))
  {
    InterleaveExtend(ws, [w], |ws|, off);
  }

  /** The first `n` words of `s`, leaving out the SYNC words. */
  function WithoutSyncUpTo(s: seq<bv32>, n: nat): seq<bv32>
    requires n <= |s|
  {
    if n == 0 then [] else WithoutSyncUpTo(s, n - 1) + (if s[n - 1] == SYNC then [] else [s[n - 1]])
  }

  /** Leave out the SYNC words. */
  function WithoutSync(s: seq<bv32>): seq<bv32>
  {
    WithoutSyncUpTo(s, |s|)
  }

  lemma {:induction false} WithoutSyncExtend(xs: seq<bv32>, ys: seq<bv32>, n: nat)
    requires n <= |xs|
    ensures WithoutSyncUpTo(xs + ys, n) == WithoutSyncUpTo(xs, n)
    decreases n
  {
    if n > 0 {
      WithoutSyncExtend(xs, ys, n - 1);
    }
  }

  lemma {:induction false} WithoutSyncAppendUpTo(a: seq<bv32>, b: seq<bv32>, k: nat)
    requires k <= |b|
    ensures WithoutSyncUpTo(a + b, |a| + k) == WithoutSync(a) + WithoutSyncUpTo(b, k)
    decreases k
  {
    if k == 0 {
      WithoutSyncExtend(a, b, |a|);
    } else {
      WithoutSyncAppendUpTo(a, b, k - 1);
      assert (a + b)[|a| + k - 1] == b[k - 1];
    }
  }

  lemma WithoutSyncAppend(a: seq<bv32>, b: seq<bv32>)
    ensures WithoutSync(a + b) == WithoutSync(a) + WithoutSync(b)
  {
    WithoutSyncAppendUpTo(a, b, |b|);
  }

  lemma WithoutSyncStep(before: seq<bv32>, w: bv32, pos: bv32)
    requires w != SYNC
    ensures WithoutSync(before + [w] + TrailingSync(pos)) == WithoutSync(before) + [w]
  {
    WithoutSyncAppend(before + [w], TrailingSync(pos));
    WithoutSyncAppend(before, [w]);
    assert WithoutSync([w]) == WithoutSyncUpTo([w], 0) + [w];
    if pos + 1 == BATCH_SIZE {
      assert WithoutSync([SYNC]) == WithoutSyncUpTo([SYNC], 0);
    }
  }

  lemma {:induction false} InterleaveUpToWithoutSync(ws: seq<bv32>, n: nat, off: bv32)
    requires n <= |ws|
    requires forall k :: 0 <= k < |ws| ==> ws[k] != SYNC
    ensures WithoutSync(InterleaveUpTo(ws, n, off)) == ws[..n]
    decreases n
  {
    if n > 0 {
      InterleaveUpToWithoutSync(ws, n - 1, off);
      WithoutSyncStep(InterleaveUpTo(ws, n - 1, off), ws[n - 1], Position(n - 1, off));
      assert ws[..n] == ws[..n - 1] + [ws[n - 1]];
    }
  }

  /** Removing the SYNC words gives back the message codewords, none of which is SYNC. */
  lemma InterleaveWithoutSync(ws: seq<bv32>, off: bv32)
    requires forall k :: 0 <= k < |ws| ==> ws[k] != SYNC
    ensures WithoutSync(Interleave(ws, off)) == ws
  {
    InterleaveUpToWithoutSync(ws, |ws|, off);
    assert ws[..|ws|] == ws;
  }

  lemma {:induction false} InterleaveUpToMembers(ws: seq<bv32>, n: nat, off: bv32)
    requires n <= |ws|
    ensures forall j :: 0 <= j < |InterleaveUpTo(ws, n, off)| ==>
      InterleaveUpTo(ws, n, off)[j] == SYNC || InterleaveUpTo(ws, n, off)[j] in ws
    decreases n
  {
    if n > 0 {
      InterleaveUpToMembers(ws, n - 1, off);
    }
  }

  /** Every word of the output is SYNC or one of the message codewords. */
  lemma InterleaveMembers(ws: seq<bv32>, off: bv32)
    ensures forall j :: 0 <= j < |Interleave(ws, off)| ==> Interleave(ws, off)[j] == SYNC || Interleave(ws, off)[j] in ws
  {
    InterleaveUpToMembers(ws, |ws|, off);
  }

  lemma AdvanceMod(pos: bv32)
    requires pos < BATCH_SIZE
    ensures Advance(pos) < BATCH_SIZE
    ensures Advance(pos) as int == (pos as int + 1) % 16
    ensures (Advance(pos) == 0) == (pos + 1 == BATCH_SIZE)
  {
  }

  /** From a position inside a batch, the position is the count of codewords so far, modulo sixteen. */
  lemma {:induction false} PositionMod(n: nat, off: bv32)
    requires off < BATCH_SIZE
    ensures Position(n, off) < BATCH_SIZE
    ensures Position(n, off) as int == (off as int + n) % 16
    decreases n
  {
    if n > 0 {
      PositionMod(n - 1, off);
      AdvanceMod(Position(n - 1, off));
      ModStep(off as int + n - 1, Position(n - 1, off) as int);
    }
  }

  lemma ModStep(a: int, b: int)
    requires b == a % 16
    ensures (b + 1) % 16 == (a + 1) % 16
  {
  }

  lemma WrapsAt(pos: bv32)
    requires pos < BATCH_SIZE
    ensures (pos + 1 == BATCH_SIZE) == (pos as int == 15)
  {
  }

  lemma DivStep16(t: nat)
    ensures (t + 1) / 16 == t / 16 + (if t % 16 == 15 then 1 else 0)
  {
  }

  /** Whether the codeword after `n` others, starting at `off`, is followed by a SYNC word. */
  lemma SyncAfter(n: nat, off: bv32, o: nat)
    requires off < BATCH_SIZE && o == off as int
    ensures (Position(n, off) + 1 == BATCH_SIZE) == ((o + n) % 16 == 15)
  {
    PositionMod(n, off);
    WrapsAt(Position(n, off));
  }

  lemma {:induction false} InterleaveUpToLength(ws: seq<bv32>, n: nat, off: bv32, o: nat)
    requires off < BATCH_SIZE && o == off as int && n <= |ws|
    ensures |InterleaveUpTo(ws, n, off)| == n + (o + n) / 16
    decreases n
  {
    if n > 0 {
      InterleaveUpToLength(ws, n - 1, off, o);
      InterleaveLengthNext(ws, n, off, o);
    }
  }

  lemma InterleaveLengthNext(ws: seq<bv32>, n: nat, off: bv32, o: nat)
    requires off < BATCH_SIZE && o == off as int && 0 < n <= |ws|
    requires |InterleaveUpTo(ws, n - 1, off)| == n - 1 + (o + n - 1) / 16
    ensures |InterleaveUpTo(ws, n, off)| == n + (o + n) / 16
  {
    var before := InterleaveUpTo(ws, n - 1, off);
    var tail := TrailingSync(Position(n - 1, off));
    assert InterleaveUpTo(ws, n, off) == before + [ws[n - 1]] + tail;
    TrailingLength(n - 1, off, o);
    LengthStep(|before|, |tail|, n, o);
  }

  lemma LengthStep(prev: int, trailing: int, n: nat, o: nat)
    requires n > 0 && prev == n - 1 + (o + n - 1) / 16
    requires trailing == if (o + n - 1) % 16 == 15 then 1 else 0
    ensures prev + 1 + trailing == n + (o + n) / 16
  {
    DivStep16(o + n - 1);
  }

  lemma TrailingLength(n: nat, off: bv32, o: nat)
    requires off < BATCH_SIZE && o == off as int
    ensures |TrailingSync(Position(n, off))| == if (o + n) % 16 == 15 then 1 else 0
  {
    SyncAfter(n, off, o);
  }

  /** One SYNC word for every sixteenth codeword counted from the start of the batch. */
  lemma InterleaveLength(ws: seq<bv32>, off: bv32)
    requires off < BATCH_SIZE
    ensures |Interleave(ws, off)| == |ws| + (off as int + |ws|) / 16
  {
    InterleaveUpToLength(ws, |ws|, off, off as int);
  }

  /** Where a word lands inside its batch of seventeen, SYNC word first. */
  lemma BatchSlot(t: nat)
    ensures (t + 1 + t / 16) % 17 != 0
    ensures (t + 2 + t / 16) % 17 == 0 <==> t % 16 == 15
  {
    var a := t / 16;
    var b := t % 16;
    assert t + 1 + a == 17 * a + (b + 1);
    assert t + 2 + a == 17 * a + (b + 2);
    ModOfMultiple(a, b + 1);
    ModOfMultiple(a, b + 2);
  }

  lemma ModOfMultiple(a: int, c: int)
    requires 0 <= c
    ensures (17 * a + c) % 17 == c % 17
  {
  }

  /** SYNC words stay at the batch starts when one more codeword is appended. */
  lemma PlacementStep(before: seq<bv32>, w: bv32, pos: bv32, after: seq<bv32>, o: nat, m: nat)
    requires w != SYNC && after == before + [w] + TrailingSync(pos)
    requires |before| == m + (o + m) / 16
    requires (pos + 1 == BATCH_SIZE) == ((o + m) % 16 == 15)
    requires SyncPlaced(before, o)
    ensures SyncPlaced(after, o)
  {
    BatchSlot(o + m);
    forall j | 0 <= j < |after|
      ensures after[j] == SYNC <==> (o + 1 + j) % 17 == 0
    {
      if j < |before| {
        assert after[j] == before[j];
      } else if j == |before| {
        assert after[j] == w;
      } else {
        assert after[j] == SYNC;
      }
    }
  }

  lemma {:induction false} SyncPlacementUpTo(ws: seq<bv32>, n: nat, off: bv32, o: nat)
    requires off < BATCH_SIZE && o == off as int && n <= |ws|
    requires forall k :: 0 <= k < |ws| ==> ws[k] != SYNC
    ensures SyncPlaced(InterleaveUpTo(ws, n, off), o)
    decreases n
  {
    if n > 0 {
      SyncPlacementUpTo(ws, n - 1, off, o);
      SyncPlacementNext(ws, n, off, o);
    }
  }

  lemma SyncPlacementNext(ws: seq<bv32>, n: nat, off: bv32, o: nat)
    requires off < BATCH_SIZE && o == off as int && 0 < n <= |ws| && ws[n - 1] != SYNC
    requires SyncPlaced(InterleaveUpTo(ws, n - 1, off), o)
    ensures SyncPlaced(InterleaveUpTo(ws, n, off), o)
  {
    var before := InterleaveUpTo(ws, n - 1, off);
    var pos := Position(n - 1, off);
    var after := InterleaveUpTo(ws, n, off);
    assert after == before + [ws[n - 1]] + TrailingSync(pos);
    InterleaveUpToLength(ws, n - 1, off, o);
    SyncAfter(n - 1, off, o);
    PlacementStep(before, ws[n - 1], pos, after, o, n - 1);
  }

  /**
   * Counted in batches of seventeen words that start `off + 1` words before
   * the first message codeword, the SYNC words are exactly the first words
   * of the batches.
   */
  lemma SyncPlacement(ws: seq<bv32>, off: bv32)
    requires off < BATCH_SIZE
    requires forall k :: 0 <= k < |ws| ==> ws[k] != SYNC
    ensures forall j :: 0 <= j < |Interleave(ws, off)| ==>
      (Interleave(ws, off)[j] == SYNC <==> (off as int + 1 + j) % 17 == 0)
  {
    SyncPlacementUpTo(ws, |ws|, off, off as int);
  }

  // ---------------------------------------------------------------------
  // Message codewords
  // ---------------------------------------------------------------------

  /** A valid codeword whose body has the message flag set. */
  predicate IsMessageWord(w: bv32)
  {
    IsCodeword(w) && BodyOf(w) & FLAG_MESSAGE != 0
  }

  lemma FlaggedBody(x: bv32)
    requires x >> 20 == 0
    ensures x | FLAG_MESSAGE < 0x20_0000
    ensures (x | FLAG_MESSAGE) & FLAG_MESSAGE != 0
  {
  }

  lemma SyncBody()
    ensures BodyOf(SYNC) & FLAG_MESSAGE == 0
  {
  }

  /** Every message codeword is a valid codeword with the flag set, so it is never SYNC. */
  lemma DataWordIsMessage(chunk: seq<bool>)
    requires |chunk| == BITS_PER_WORD
    ensures IsMessageWord(DataWord(chunk))
    ensures DataWord(chunk) != SYNC
  {
    PackBound(chunk, 20);
    FlaggedBody(Pack(chunk));
    EncodedIsCodeword(Pack(chunk) | FLAG_MESSAGE);
    CodewordLayout(Pack(chunk) | FLAG_MESSAGE);
    SyncBody();
  }

  lemma {:induction false} WordsUpToMessages(bits: seq<bool>, n: nat)
    requires 20 * n <= |bits|
    ensures forall k :: 0 <= k < n ==> IsMessageWord(WordsUpTo(bits, n)[k]) && WordsUpTo(bits, n)[k] != SYNC
    decreases n
  {
    if n > 0 {
      var before := WordsUpTo(bits, n - 1);
      var w := DataWord(Chunk(bits, n - 1));
      WordsUpToMessages(bits, n - 1);
      DataWordIsMessage(Chunk(bits, n - 1));
      MessagesSnoc(before, w, WordsUpTo(bits, n));
    }
  }

  lemma MessagesSnoc(before: seq<bv32>, w: bv32, after: seq<bv32>)
    requires after == before + [w] && IsMessageWord(w) && w != SYNC
    requires forall k :: 0 <= k < |before| ==> IsMessageWord(before[k]) && before[k] != SYNC
    ensures forall k :: 0 <= k < |after| ==> IsMessageWord(after[k]) && after[k] != SYNC
  {
    forall k | 0 <= k < |after|
      ensures IsMessageWord(after[k]) && after[k] != SYNC
    {
      if k < |before| {
        assert after[k] == before[k];
      }
    }
  }

  /** Every message codeword carries the message flag and is never SYNC. */
  lemma WordsAreMessages(bits: seq<bool>)
    requires |bits| % BITS_PER_WORD == 0
    ensures forall k :: 0 <= k < |Words(bits)| ==> IsMessageWord(Words(bits)[k]) && Words(bits)[k] != SYNC
  {
    WordsUpToMessages(bits, |bits| / 20);
  }

  // ---------------------------------------------------------------------
  // Filling the output buffer word by word
  // ---------------------------------------------------------------------

  /** The buffer `a` with `s` written over it from index `at` on. */
  function Splice(a: seq<bv32>, at: nat, s: seq<bv32>): (r: seq<bv32>)
    requires at + |s| <= |a|
    ensures |r| == |a|
  {
    a[..at] + s + a[at + |s|..]
  }

  lemma SpliceSnoc(a: seq<bv32>, at: nat, s: seq<bv32>, w: bv32)
    requires at + |s| < |a|
    ensures Splice(a, at, s)[at + |s| := w] == Splice(a, at, s + [w])
  {
    var left := Splice(a, at, s)[at + |s| := w];
    var right := Splice(a, at, s + [w]);
    assert forall k :: 0 <= k < |a| ==> left[k] == right[k];
  }

  lemma SpliceEmpty(a: seq<bv32>, at: nat)
    requires at <= |a|
    ensures Splice(a, at, []) == a
  {
  }

  /**
   * One more whole word: the output grows by its codeword and, when it fills
   * the batch, a SYNC word; and the batch position advances.
   */
  lemma EmitStep(done: seq<bool>, chunk: seq<bool>, off: bv32)
    requires |done| % BITS_PER_WORD == 0 && |chunk| == BITS_PER_WORD
    ensures Interleave(Words(done + chunk), off) == Interleave(Words(done), off) + [DataWord(chunk)]
      + TrailingSync(Position(|Words(done)|, off))
    ensures Position(|Words(done + chunk)|, off) == Advance(Position(|Words(done)|, off))
  {
    WordsSnoc(done, chunk);
    InterleaveSnoc(Words(done), DataWord(chunk), off);
  }

  /** How many words the first `n` message codewords take once the SYNC words are in. */
  function InterleaveSize(n: nat, off: bv32): nat
  {
    if n == 0 then 0 else InterleaveSize(n - 1, off) + 1 + |TrailingSync(Position(n - 1, off))|
  }

  lemma {:induction false} InterleaveUpToSize(ws: seq<bv32>, n: nat, off: bv32)
    requires n <= |ws|
    ensures |InterleaveUpTo(ws, n, off)| == InterleaveSize(n, off)
    decreases n
  {
    if n > 0 {
      InterleaveUpToSize(ws, n - 1, off);
    }
  }

  lemma {:induction false} InterleaveSizeMono(m: nat, n: nat, off: bv32)
    requires m <= n
    ensures InterleaveSize(m, off) <= InterleaveSize(n, off)
    decreases n
  {
    if m < n {
      InterleaveSizeMono(m, n - 1, off);
    }
  }

  lemma WordCountMono(short: nat, long: nat)
    requires short <= long
    ensures short / 20 <= long / 20
  {
  }

  /** The output for fewer bits is no longer than the output for more. */
  lemma OutputWithin(read: seq<bool>, all: seq<bool>, off: bv32)
    requires |read| % BITS_PER_WORD == 0 && |all| % BITS_PER_WORD == 0 && |read| <= |all|
    ensures |Interleave(Words(read), off)| <= |Interleave(Words(all), off)|
  {
    WordCountMono(|read|, |all|);
    InterleaveUpToSize(Words(read), |Words(read)|, off);
    InterleaveUpToSize(Words(all), |Words(all)|, off);
    InterleaveSizeMono(|Words(read)|, |Words(all)|, off);
  }

  /**
   * The state of an encoder part way through a message: `done` holds the
   * bits of the words already written, `pend` those of the word being
   * filled; `word`, `numBits` and `pos` are the encoder's current word, its
   * bit count and the batch position; `produced` is what has been written.
   */
  predicate Filling(off: bv32, done: seq<bool>, pend: seq<bool>, word: bv32, numBits: bv32, pos: bv32,
                    produced: seq<bv32>)
  {
    && |done| % BITS_PER_WORD == 0
    && numBits < 20 && numBits as int == |pend|
    && word == Pack(pend)
    && produced == Interleave(Words(done), off)
    && pos == Position(|Words(done)|, off)
  }

  lemma FillingStart(off: bv32)
    ensures Filling(off, [], [], 0, 0, off, [])
  {
  }

  lemma CountUp(numBits: bv32)
    requires numBits < 20
    ensures (numBits + 1) as int == numBits as int + 1
  {
  }

  lemma ShiftedIn(word: bv32, bit: bv32, b: bool)
    requires bit == BitValue(b)
    ensures (word << 1) | bit == Push(word, b)
  {
  }

  /** One more bit that does not complete a word. */
  lemma PushStep(off: bv32, done: seq<bool>, pend: seq<bool>, word: bv32, numBits: bv32, pos: bv32,
                 produced: seq<bv32>, b: bool)
    requires Filling(off, done, pend, word, numBits, pos, produced)
    requires numBits + 1 != 20
    ensures Filling(off, done, pend + [b], Push(word, b), numBits + 1, pos, produced)
  {
    PackSnoc(pend, b);
    CountUp(numBits);
  }

  /**
   * The bit that completes a word: its codeword is written, followed by a
   * SYNC word when it fills the batch, and the output stays within that of
   * the whole stream `all`.
   */
  lemma CompleteStep(off: bv32, done: seq<bool>, pend: seq<bool>, word: bv32, numBits: bv32, pos: bv32,
                     produced: seq<bv32>, b: bool, all: seq<bool>)
    requires Filling(off, done, pend, word, numBits, pos, produced)
    requires numBits + 1 == 20
    requires |all| % BITS_PER_WORD == 0 && |done| + |pend| + 1 <= |all|
    ensures |pend + [b]| == BITS_PER_WORD
    ensures Filling(off, done + (pend + [b]), [], 0, 0, Advance(pos),
                    produced + [EncodeCodeword(Push(word, b) | FLAG_MESSAGE)]
                    + TrailingSync(pos))
    ensures |produced| + 1 + |TrailingSync(pos)| <= |Interleave(Words(all), off)|
  {
    LastBit(numBits, |pend|);
    CompleteFilling(off, done, pend, word, numBits, pos, produced, b);
    CompleteWithin(off, done, pend + [b], produced, pos, all);
  }

  lemma CompleteFilling(off: bv32, done: seq<bool>, pend: seq<bool>, word: bv32, numBits: bv32, pos: bv32,
                        produced: seq<bv32>, b: bool)
    requires Filling(off, done, pend, word, numBits, pos, produced)
    requires |pend + [b]| == BITS_PER_WORD
    ensures Filling(off, done + (pend + [b]), [], 0, 0, Advance(pos),
                    produced + [EncodeCodeword(Push(word, b) | FLAG_MESSAGE)]
                    + TrailingSync(pos))
  {
    var chunk := pend + [b];
    PackSnoc(pend, b);
    assert EncodeCodeword(Push(word, b) | FLAG_MESSAGE) == DataWord(chunk);
    WholeWords(|done|);
    EmitStep(done, chunk, off);
  }

  lemma CompleteWithin(off: bv32, done: seq<bool>, chunk: seq<bool>, produced: seq<bv32>, pos: bv32,
                       all: seq<bool>)
    requires |done| % BITS_PER_WORD == 0 && |chunk| == BITS_PER_WORD
    requires produced == Interleave(Words(done), off) && pos == Position(|Words(done)|, off)
    requires |all| % BITS_PER_WORD == 0 && |done| + |chunk| <= |all|
    ensures |produced| + 1 + |TrailingSync(pos)| <= |Interleave(Words(all), off)|
  {
    var read := done + chunk;
    assert |read| == |done| + 20;
    WholeWords(|done|);
    assert |read| % BITS_PER_WORD == 0;
    OutputWithin(read, all, off);
    EmitStep(done, chunk, off);
    assert Interleave(Words(read), off) == produced + [DataWord(chunk)] + TrailingSync(pos);
  }

  lemma WholeWords(n: nat)
    requires n % BITS_PER_WORD == 0
    ensures (n + 20) % BITS_PER_WORD == 0 && (n + 20) / 20 == n / 20 + 1 && n == 20 * (n / 20)
  {
  }

  lemma LastBit(numBits: bv32, n: nat)
    requires numBits + 1 == 20 && numBits as int == n
    ensures n == 19
  {
  }

  /** The padded last word, `last`, completes the output. */
  lemma FinishStep(off: bv32, done: seq<bool>, pend: seq<bool>, word: bv32, numBits: bv32, pos: bv32,
                   produced: seq<bv32>, chunk: seq<bool>, all: seq<bool>, last: bv32)
    requires Filling(off, done, pend, word, numBits, pos, produced)
    requires |chunk| == BITS_PER_WORD && all == done + chunk && last == Pack(chunk)
    ensures Interleave(Words(all), off) == produced + [EncodeCodeword(last | FLAG_MESSAGE)] + TrailingSync(pos)
  {
    EmitStep(done, chunk, off);
  }

  /** A SYNC word follows a codeword exactly when it is the last of its batch. */
  function TrailingSync(pos: bv32): seq<bv32>
  {
    if pos + 1 == BATCH_SIZE then [SYNC] else []
  }

  /**
   * The tail both encoders share: the message codeword of `word` goes to
   * `out[at + numWordsWritten]`, the batch position advances, and a SYNC
   * word follows when the batch is full.
   */
  method EmitWord(out: array<bv32>, at: nat, numWordsWritten: nat, word: bv32, wordPosition: bv32,
                  ghost original: seq<bv32>, ghost produced: seq<bv32>)
    returns (written: nat, position: bv32, ghost grown: seq<bv32>)
    requires at + |produced| + 1 + |TrailingSync(wordPosition)| <= |original|
    requires numWordsWritten == |produced| && out[..] == Splice(original, at, produced)
    modifies out
    ensures grown == produced + [EncodeCodeword(word | FLAG_MESSAGE)] + TrailingSync(wordPosition)
    ensures written == |grown| && out[..] == Splice(original, at, grown)
    ensures position == Advance(wordPosition)
  {
    written, grown := WriteWord(out, at, numWordsWritten, EncodeCodeword(word | FLAG_MESSAGE), original, produced);
    position := wordPosition + 1;
    if position == BATCH_SIZE {
      written, grown := WriteWord(out, at, written, SYNC, original, grown);
      position := 0;
    }
  }

  /** Write `w` at `out[at + numWordsWritten]`, just after the words written so far. */
  method WriteWord(out: array<bv32>, at: nat, numWordsWritten: nat, w: bv32,
                   ghost original: seq<bv32>, ghost produced: seq<bv32>)
    returns (written: nat, ghost grown: seq<bv32>)
    requires at + |produced| < |original|
    requires numWordsWritten == |produced| && out[..] == Splice(original, at, produced)
    modifies out
    ensures grown == produced + [w]
    ensures written == |grown| && out[..] == Splice(original, at, grown)
  {
    SpliceSnoc(original, at, produced, w);
    out[at + numWordsWritten] := w;
    grown := produced + [w];
    written := numWordsWritten + 1;
  }

  /**
   * The loop body both encoders share: `bit` is shifted into the current
   * word, and a completed word is written out by EmitWord.  Ghost `b` is the
   * bit as a boolean, `all` the whole padded stream, whose output bounds
   * what is written.
   */
  method PushBit(out: array<bv32>, at: nat, numWordsWritten: nat, currentWord: bv32, currentNumBits: bv32,
                 wordPosition: bv32, bit: bv32, ghost off: bv32, ghost original: seq<bv32>,
                 ghost done: seq<bool>, ghost pend: seq<bool>, ghost produced: seq<bv32>, ghost b: bool,
                 ghost all: seq<bool>)
    returns (written: nat, word: bv32, numBits: bv32, position: bv32,
             ghost done': seq<bool>, ghost pend': seq<bool>, ghost produced': seq<bv32>)
    requires bit == BitValue(b)
    requires Filling(off, done, pend, currentWord, currentNumBits, wordPosition, produced)
    requires |all| % BITS_PER_WORD == 0 && |done| + |pend| + 1 <= |all|
    requires at + |Interleave(Words(all), off)| <= |original| && at + |produced| <= |original|
    requires numWordsWritten == |produced| && out[..] == Splice(original, at, produced)
    modifies out
    ensures Filling(off, done', pend', word, numBits, position, produced')
    ensures done' + pend' == done + (pend + [b])
    ensures at + |produced'| <= |original|
    ensures written == |produced'| && out[..] == Splice(original, at, produced')
  {
    ShiftedIn(currentWord, bit, b);
    if currentNumBits + 1 != 20 {
      PushStep(off, done, pend, currentWord, currentNumBits, wordPosition, produced, b);
    } else {
      CompleteStep(off, done, pend, currentWord, currentNumBits, wordPosition, produced, b, all);
    }
    written, word, numBits, position := numWordsWritten, (currentWord << 1) | bit, currentNumBits + 1, wordPosition;
    done', pend', produced' := done, pend + [b], produced;
    if numBits == 20 {
      written, position, produced' := EmitWord(out, at, written, word, position, original, produced');
      done', pend' := done' + pend', [];
      word := 0;
      numBits := 0;
    }
  }
}
