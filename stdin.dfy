/**
 * read_stdin_message: one line of standard input of the form
 * `capcode:message`. The line is the value getline delivered (None at end
 * of input); the capcode and the caller's message buffer are updated as the
 * C code updates them.
 */
module StdinInput {
  import opened Numbers
  import opened Wrappers

  const COLON: bv8 := 0x3A
  const NUL: bv8 := 0x00

  /** What read_stdin_message returns, the capcode it leaves behind and the message it copies. */
  datatype LineOutcome = LineOutcome(status: int, capcode: nat, message: seq<bv8>)

  /** The line without one trailing newline. */
  function Stripped(line: seq<bv8>): (s: seq<bv8>)
    ensures s == line || line == s + [LF]
  {
    if |line| > 0 && line[|line| - 1] == LF then line[..|line| - 1] else line
  }

  /**
   * strchr from index `i`: the first ':' at or after `i` that comes before
   * any NUL byte (the C string ends at its first NUL).
   */
  function ColonFrom(s: seq<bv8>, i: nat): (r: Option<nat>)
    requires i <= |s|
    decreases |s| - i
    ensures r.Some? ==> i <= r.value < |s| && s[r.value] == COLON
    ensures r.Some? ==> forall j :: i <= j < r.value ==> s[j] != COLON && s[j] != NUL
    ensures r.None? ==> forall j :: i <= j < |s| && s[j] == COLON ==> exists k :: i <= k < j && s[k] == NUL
  {
    if i == |s| || s[i] == NUL then None
    else if s[i] == COLON then Some(i)
    else ColonFrom(s, i + 1)
  }

  function FirstColon(s: seq<bv8>): Option<nat>
  {
    ColonFrom(s, 0)
  }

  /** The outcome of read_stdin_message on `line` with a buffer of `maxChars` bytes and the capcode `capcode`. */
  function ParseLine(line: Option<seq<bv8>>, maxChars: nat, capcode: nat): LineOutcome
  {
    match line
    case None => LineOutcome(1, capcode, [])
    case Some(l) =>
      var s := Stripped(l);
      match FirstColon(s)
      case None => LineOutcome(2, capcode, [])
      case Some(k) =>
        var parsed := Str2Uint64(capcode, s[..k]);
        if parsed.status < 0 then LineOutcome(2, capcode, [])
        else if |s| - (k + 1) >= maxChars then LineOutcome(2, parsed.out, [])
        else LineOutcome(0, parsed.out, s[k + 1..])
  }

  // ---------------------------------------------------------------------
  // Properties
  // ---------------------------------------------------------------------

  /** The status is 1 exactly at end of input, 0 or 2 otherwise; a delivered message fits the buffer with its NUL. */
  lemma OutcomeShape(line: Option<seq<bv8>>, maxChars: nat, capcode: nat)
    ensures var o := ParseLine(line, maxChars, capcode);
      (o.status == 1 <==> line.None?) && (o.status == 0 || o.status == 1 || o.status == 2)
      && (o.status == 0 ==> |o.message| < maxChars && o.capcode <= UINT64_MAX)
      && (o.status != 0 ==> o.message == [])
  {
  }

  /**
   * `capcode:message` is read back as that capcode and message, with its
   * newline or, as the last line of input, without one.
   */
  lemma ParseLineRoundTrip(c: nat, m: seq<bv8>, newline: bool, maxChars: nat, capcode: nat)
    requires c <= UINT64_MAX && |m| < maxChars
    requires !newline && |m| > 0 ==> m[|m| - 1] != LF
    ensures var l := Decimal(c) + [COLON] + m + (if newline then [LF] else []);
      ParseLine(Some(l), maxChars, capcode) == LineOutcome(0, c, m)
  {
    var d := Decimal(c);
    var s := d + [COLON] + m;
    var l := s + (if newline then [LF] else []);
    assert Stripped(l) == s by {
      if !newline {
        assert l == s;
        if |m| > 0 {
          assert s[|s| - 1] == m[|m| - 1];
        } else {
          assert s[|s| - 1] == COLON;
        }
      } else {
        assert l[..|l| - 1] == s;
      }
    }
    assert FirstColon(s) == Some(|d|) by {
      forall j | 0 <= j < |d|
        ensures s[j] != COLON && s[j] != NUL
      {
        assert s[j] == d[j] && IsDigit(d[j]);
      }
      ColonAt(s, |d|);
    }
    assert s[..|d|] == d;
    assert s[|d| + 1..] == m;
    Str2Uint64Decimal(capcode, c);
  }

  /** A ':' preceded only by bytes other than ':' and NUL is the one strchr finds. */
  lemma {:induction false} ColonAtFrom(s: seq<bv8>, i: nat, k: nat)
    requires i <= k < |s| && s[k] == COLON
    requires forall j :: 0 <= j < k ==> s[j] != COLON && s[j] != NUL
    decreases k - i
    ensures ColonFrom(s, i) == Some(k)
  {
    if i < k {
      ColonAtFrom(s, i + 1, k);
    }
  }

  lemma ColonAt(s: seq<bv8>, k: nat)
    requires k < |s| && s[k] == COLON
    requires forall j :: 0 <= j < k ==> s[j] != COLON && s[j] != NUL
    ensures FirstColon(s) == Some(k)
  {
    ColonAtFrom(s, 0, k);
  }

  /** A recognised capcode is stored even when the message is then rejected as too long. */
  lemma TooLongKeepsCapcode(c: nat, m: seq<bv8>, maxChars: nat, capcode: nat)
    requires c <= UINT64_MAX && |m| >= maxChars && (|m| > 0 ==> m[|m| - 1] != LF)
    ensures ParseLine(Some(Decimal(c) + [COLON] + m), maxChars, capcode) == LineOutcome(2, c, [])
  {
    var d := Decimal(c);
    var s := d + [COLON] + m;
    assert s[|s| - 1] != LF by {
      if |m| > 0 {
        assert s[|s| - 1] == m[|m| - 1];
      }
    }
    forall j | 0 <= j < |d|
      ensures s[j] != COLON && s[j] != NUL
    {
      assert s[j] == d[j] && IsDigit(d[j]);
    }
    ColonAt(s, |d|);
    assert s[..|d|] == d;
    Str2Uint64Decimal(capcode, c);
  }

  /** A line without ':' is rejected and leaves the capcode alone. */
  lemma NoColonRejected(l: seq<bv8>, maxChars: nat, capcode: nat)
    requires forall j :: 0 <= j < |l| ==> l[j] != COLON
    ensures ParseLine(Some(l), maxChars, capcode) == LineOutcome(2, capcode, [])
  {
  }

  // ---------------------------------------------------------------------
  // The reader
  // ---------------------------------------------------------------------

  /**
   * read_stdin_message: the status and the capcode as ParseLine gives them;
   * on success the message and its NUL are copied to the front of
   * `messageBuf`, otherwise the buffer is left as it was.
   */
  method ReadStdinMessage(line: Option<seq<bv8>>, maxChars: nat, capcode: nat, messageBuf: array<bv8>)
    returns (status: int, capcodeOut: nat)
    requires maxChars <= messageBuf.Length
    modifies messageBuf
    ensures var o := ParseLine(line, maxChars, capcode);
      status == o.status && capcodeOut == o.capcode
    ensures var o := ParseLine(line, maxChars, capcode);
      status == 0 ==> (|o.message| < messageBuf.Length
        && messageBuf[..|o.message|] == o.message && messageBuf[|o.message|] == NUL
        && messageBuf[|o.message| + 1..] == old(messageBuf[|o.message| + 1..]))
    ensures status != 0 ==> messageBuf[..] == old(messageBuf[..])
  {
    if line.None? {
      return 1, capcode;
    }
    var s := Stripped(line.value);
    var colon := FirstColon(s);
    if colon.None? {
      return 2, capcode;
    }
    var k := colon.value;
    var parsed := Str2Uint64(capcode, s[..k]);
    if parsed.status < 0 {
      return 2, capcode;
    }
    capcodeOut := parsed.out;
    var msgLen := |s| - (k + 1);
    if msgLen >= maxChars {
      return 2, capcodeOut;
    }
    var i := 0;
    while i < msgLen
      invariant 0 <= i <= msgLen
      invariant messageBuf[..i] == s[k + 1..k + 1 + i]
      invariant forall j :: i <= j < messageBuf.Length ==> messageBuf[j] == old(messageBuf[j])
    {
      messageBuf[i] := s[k + 1 + i];
      i := i + 1;
    }
    ghost var before := messageBuf[..];
    assert before[..msgLen] == s[k + 1..];
    messageBuf[msgLen] := NUL;
    assert messageBuf[..msgLen] == before[..msgLen];
    assert messageBuf[msgLen + 1..] == old(messageBuf[msgLen + 1..]);
    assert ParseLine(line, maxChars, capcode) == LineOutcome(0, capcodeOut, s[k + 1..]);
    status := 0;
  }
}
