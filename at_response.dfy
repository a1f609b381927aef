/**
 * at_read_response: reading the device's reply to an AT command line by
 * line. "OK" and "ERROR" lines end the reply; a line starting with '+' is
 * kept as the data of the reply; every other line is dropped. The reply
 * also ends once the 8 s budget is spent or 20 polls in a row brought
 * nothing.
 */
module AtResponse {
  import opened Serial
  import opened Numbers

  const AT_BUFFER_SIZE: nat := 1024
  /** The longest line kept: the line buffer holds AT_BUFFER_SIZE bytes with its NUL. */
  const LINE_MAX: nat := AT_BUFFER_SIZE - 1
  const AT_TIMEOUT_MS: int := 8000
  const POLL_INTERVAL_MS: int := 50
  const MAX_EMPTY_READS: nat := 20

  /** "OK" */
  const OK_LINE: seq<bv8> := [0x4F, 0x4B]
  /** "ERROR" */
  const ERROR_LINE: seq<bv8> := [0x45, 0x52, 0x52, 0x4F, 0x52]

  /** at_response_t */
  datatype Response = Ok | Error | Data | Timeout | Invalid

  /** The reply: its kind, the last '+' line kept (empty if none) and the port afterwards. */
  datatype Reply = Reply(response: Response, buffer: seq<bv8>, port: Port)

  /** The loop's variables: the line so far, the budget left, the empty polls in a row, the kept line. */
  datatype ReadState = ReadState(line: seq<bv8>, timeout: int, emptyReads: nat, buffer: seq<bv8>, got: bool)

  /** One step of the loop: it goes on with new variables or returns. */
  datatype Outcome = Continue(st: ReadState) | Finished(response: Response)

  /** A printable byte: 32 to 126. */
  predicate IsPrintable(c: bv8)
  {
    0x20 <= c <= 0x7E
  }

  /** `c < 32` for a signed C `char`: the control bytes and every byte from 0x80 up. */
  predicate IsControl(c: bv8)
  {
    c < 0x20 || c >= 0x80
  }

  predicate AllPrintable(s: seq<bv8>)
  {
    forall i :: 0 <= i < |s| ==> IsPrintable(s[i])
  }

  const Initial: ReadState := ReadState([], AT_TIMEOUT_MS, 0, [], false)

  /** Whether the loop condition holds. */
  predicate Active(st: ReadState)
  {
    st.timeout > 0 && st.emptyReads < MAX_EMPTY_READS
  }

  /** A byte that was read. */
  function OnByte(st: ReadState, c: bv8, bufferSize: nat): Outcome
  {
    var st := st.(emptyReads := 0);
    if c == CR then Continue(st)
    else if c == LF && st.line == [] then Continue(st)
    else if c == LF && st.line == OK_LINE then Finished(Ok)
    else if c == LF && st.line == ERROR_LINE then Finished(Error)
    else if c == LF && st.line[0] == PLUS && |st.line| < bufferSize then
      Continue(st.(line := [], buffer := st.line, got := true, timeout := AT_TIMEOUT_MS))
    else if c == LF then Continue(st.(line := [], timeout := AT_TIMEOUT_MS))
    else if |st.line| < LINE_MAX && IsPrintable(c) then
      Continue(st.(line := st.line + [c], timeout := AT_TIMEOUT_MS))
    else if IsControl(c) then Continue(st.(line := [], timeout := AT_TIMEOUT_MS))
    else Continue(st.(timeout := AT_TIMEOUT_MS))
  }

  /** One poll, and the read after it when the poll reports input. */
  function OnEvent(st: ReadState, e: Event, bufferSize: nat): Outcome
  {
    match e
    case PollFailed => Finished(Invalid)
    case PollIdle => Continue(st.(timeout := st.timeout - POLL_INTERVAL_MS, emptyReads := st.emptyReads + 1))
    case PollNoInput => Continue(st.(timeout := st.timeout - POLL_INTERVAL_MS))
    case ReadFailed => Finished(Invalid)
    case ReadNothing => Continue(st.(timeout := st.timeout - POLL_INTERVAL_MS, emptyReads := st.emptyReads + 1))
    case Byte(c) => OnByte(st, c, bufferSize)
  }

  /** What the loop returns from the variables `st` on the port `p`. */
  function Run(st: ReadState, p: Port, bufferSize: nat): Reply
    decreases |p.input|, MAX_EMPTY_READS - st.emptyReads, 1
  {
    if !Active(st) then Reply(if st.got then Data else Timeout, st.buffer, p) else Step(st, p, bufferSize)
  }

  /** One iteration of the loop and what the loop returns after it. */
  function Step(st: ReadState, p: Port, bufferSize: nat): Reply
    requires Active(st)
    decreases |p.input|, MAX_EMPTY_READS - st.emptyReads, 0
  {
    var (e, q) := Next(p);
    match OnEvent(st, e, bufferSize)
    case Finished(r) => Reply(r, st.buffer, q)
    case Continue(next) => Run(next, q, bufferSize)
  }

  /** The reply at_read_response reads from `p` into a buffer of `bufferSize` bytes. */
  function ReplyOf(p: Port, bufferSize: nat): Reply
  {
    Run(Initial, p, bufferSize)
  }

  /** at_read_response */
  method ReadResponse(p: Port, bufferSize: nat) returns (response: Response, buffer: seq<bv8>, q: Port)
    ensures Reply(response, buffer, q) == ReplyOf(p, bufferSize)
  {
    var st := Initial;
    q := p;
    while Active(st)
      invariant Run(st, q, bufferSize) == ReplyOf(p, bufferSize)
      decreases |q.input|, MAX_EMPTY_READS - st.emptyReads
    {
      var e;
      e, q := Next(q).0, Next(q).1;
      var outcome := OnEvent(st, e, bufferSize);
      if outcome.Finished? {
        return outcome.response, st.buffer, q;
      }
      st := outcome.st;
    }
    response := if st.got then Data else Timeout;
    buffer := st.buffer;
  }

  // ---------------------------------------------------------------------
  // What the loop keeps
  // ---------------------------------------------------------------------

  /** A line that can have been kept: a '+' line of printable bytes that fits the caller's buffer. */
  predicate KeptLine(s: seq<bv8>, bufferSize: nat)
  {
    0 < |s| < bufferSize && |s| <= LINE_MAX && s[0] == PLUS && AllPrintable(s)
  }

  /** What holds of the loop's variables at every turn. */
  predicate Valid(st: ReadState, bufferSize: nat)
  {
    |st.line| <= LINE_MAX && AllPrintable(st.line) && st.timeout <= AT_TIMEOUT_MS
    && st.emptyReads <= MAX_EMPTY_READS
    && (st.got <==> st.buffer != [])
    && (st.buffer != [] ==> KeptLine(st.buffer, bufferSize))
  }

  lemma OnByteValid(st: ReadState, c: bv8, bufferSize: nat)
    requires Valid(st, bufferSize)
    ensures OnByte(st, c, bufferSize).Continue? ==> Valid(OnByte(st, c, bufferSize).st, bufferSize)
  {
    var st0 := st.(emptyReads := 0);
    if |st.line| < LINE_MAX && IsPrintable(c) && c != LF && c != CR {
      assert st0.line + [c] == OnByte(st, c, bufferSize).st.line;
      assert AllPrintable(st.line + [c]) by {
        forall i | 0 <= i < |st.line + [c]|
          ensures IsPrintable((st.line + [c])[i])
        {
          if i < |st.line| {
            assert (st.line + [c])[i] == st.line[i];
          }
        }
      }
    }
  }

  lemma OnEventValid(st: ReadState, e: Event, bufferSize: nat)
    requires Valid(st, bufferSize) && Active(st)
    ensures OnEvent(st, e, bufferSize).Continue? ==> Valid(OnEvent(st, e, bufferSize).st, bufferSize)
  {
    if e.Byte? {
      OnByteValid(st, e.c, bufferSize);
    }
  }

  /**
   * What every reply satisfies: the buffer is empty or holds a '+' line that
   * fits; Data exactly when a line was kept and the loop ran out, Timeout
   * when it ran out with nothing kept; the port only lost input events.
   */
  lemma RunShape(st: ReadState, p: Port, bufferSize: nat)
    requires Valid(st, bufferSize)
    ensures var r := Run(st, p, bufferSize);
      (r.buffer == [] || KeptLine(r.buffer, bufferSize))
      && (r.response == Data ==> r.buffer != [])
      && (r.response == Timeout ==> r.buffer == [])
      && r.port == p.(input := r.port.input)
      && |r.port.input| <= |p.input|
      && r.port.input == p.input[|p.input| - |r.port.input|..]
  {
    RunReplyShape(st, p, bufferSize);
    RunPortShape(st, p, bufferSize);
  }

  lemma {:induction false} RunReplyShape(st: ReadState, p: Port, bufferSize: nat)
    requires Valid(st, bufferSize)
    decreases |p.input|, MAX_EMPTY_READS - st.emptyReads
    ensures var r := Run(st, p, bufferSize);
      (r.buffer == [] || KeptLine(r.buffer, bufferSize))
      && (r.response == Data ==> r.buffer != [])
      && (r.response == Timeout ==> r.buffer == [])
  {
    if Active(st) {
      var (e, q) := Next(p);
      OnEventValid(st, e, bufferSize);
      if OnEvent(st, e, bufferSize).Continue? {
        RunReplyShape(OnEvent(st, e, bufferSize).st, q, bufferSize);
      }
    }
  }

  lemma {:induction false} RunPortShape(st: ReadState, p: Port, bufferSize: nat)
    decreases |p.input|, MAX_EMPTY_READS - st.emptyReads
    ensures Consumed(p, Run(st, p, bufferSize).port)
  {
    if Active(st) {
      var (e, q) := Next(p);
      if OnEvent(st, e, bufferSize).Continue? {
        RunPortShape(OnEvent(st, e, bufferSize).st, q, bufferSize);
        var r := Run(st, p, bufferSize);
        assert r == Step(st, p, bufferSize) == Run(OnEvent(st, e, bufferSize).st, q, bufferSize);
        ConsumedTwice(p, q, r.port);
      }
    }
  }

  /** Whether an event ends the reply as a communication error. */
  predicate IsFailure(e: Event)
  {
    e.PollFailed? || e.ReadFailed?
  }

  /**
   * How a reply `r` read from the events `input` ended: Invalid exactly when
   * a failed poll or read was the last event consumed; Ok and Error only
   * right after a line feed.
   */
  predicate EndsRight(input: seq<Event>, r: Reply)
  {
    var used := |input| - |r.port.input|;
    0 <= used <= |input|
    && (r.response == Invalid ==> used > 0 && IsFailure(input[used - 1]))
    && (r.response in {Ok, Error} ==> used > 0 && input[used - 1] == Byte(LF))
    && (r.response in {Data, Timeout} ==> used == 0 || !IsFailure(input[used - 1]))
  }

  /** Every reply ends as EndsRight says. */
  lemma {:induction false} RunEnd(st: ReadState, p: Port, bufferSize: nat)
    decreases |p.input|, MAX_EMPTY_READS - st.emptyReads
    ensures EndsRight(p.input, Run(st, p, bufferSize))
  {
    if Active(st) {
      var (e, q) := Next(p);
      if OnEvent(st, e, bufferSize).Continue? {
        RunEnd(OnEvent(st, e, bufferSize).st, q, bufferSize);
        RunEndNext(st, p, bufferSize);
      }
    }
  }

  /** The step case of RunEnd: an event that lets reading go on keeps EndsRight. */
  lemma RunEndNext(st: ReadState, p: Port, bufferSize: nat)
    requires Active(st) && OnEvent(st, Next(p).0, bufferSize).Continue?
    requires EndsRight(Next(p).1.input, Run(OnEvent(st, Next(p).0, bufferSize).st, Next(p).1, bufferSize))
    ensures EndsRight(p.input, Run(st, p, bufferSize))
  {
    var (e, q) := Next(p);
    var r := Run(OnEvent(st, e, bufferSize).st, q, bufferSize);
    assert Run(st, p, bufferSize) == Step(st, p, bufferSize) == r;
    if |p.input| > 0 {
      var used := |q.input| - |r.port.input|;
      assert q.input == p.input[1..];
      if used > 0 {
        assert p.input[used] == q.input[used - 1];
      } else if r.response in {Data, Timeout} {
        assert p.input[0] == e && !IsFailure(e);
      }
    }
  }

  // ---------------------------------------------------------------------
  // Timeout budget
  // ---------------------------------------------------------------------

  /**
   * A byte restores the full budget, except a carriage return or the line
   * feed of an empty line, which leave it as it was.
   */
  lemma ByteBudget(st: ReadState, c: bv8, bufferSize: nat)
    ensures var o := OnByte(st, c, bufferSize);
      o.Continue? ==> (o.st.emptyReads == 0
        && (if c == CR || (c == LF && st.line == []) then o.st.timeout == st.timeout
            else o.st.timeout == AT_TIMEOUT_MS))
  {
  }

  /** On a silent line the reply ends after the empty polls still allowed, with what was kept. */
  lemma {:induction false} SilentEnd(st: ReadState, p: Port, bufferSize: nat)
    requires |p.input| == 0 && st.emptyReads <= MAX_EMPTY_READS
    requires st.timeout > POLL_INTERVAL_MS * (MAX_EMPTY_READS - st.emptyReads - 1)
    decreases MAX_EMPTY_READS - st.emptyReads
    ensures Run(st, p, bufferSize) == Reply(if st.got then Data else Timeout, st.buffer, p)
  {
    if Active(st) {
      var idle := st.(timeout := st.timeout - POLL_INTERVAL_MS, emptyReads := st.emptyReads + 1);
      assert Next(p) == (PollIdle, p);
      assert Run(st, p, bufferSize) == Step(st, p, bufferSize) == Run(idle, p, bufferSize);
      SilentEnd(idle, p, bufferSize);
    }
  }

  /** With nothing from the device the reply is Timeout, with an empty buffer. */
  lemma SilentTimeout(p: Port, bufferSize: nat)
    requires |p.input| == 0
    ensures ReplyOf(p, bufferSize) == Reply(Timeout, [], p)
  {
    SilentEnd(Initial, p, bufferSize);
  }

  // ---------------------------------------------------------------------
  // Lines
  // ---------------------------------------------------------------------

  /** The events of reading the bytes `t` one after another. */
  function ByteEvents(t: seq<bv8>): (es: seq<Event>)
    ensures |es| == |t|
    ensures forall i :: 0 <= i < |t| ==> es[i] == Byte(t[i])
  {
    seq(|t|, i requires 0 <= i < |t| => Byte(t[i]))
  }

  /** One printable byte that fits is appended to the line and restores the budget. */
  lemma PrintableStep(st: ReadState, c: bv8, p: Port, bufferSize: nat)
    requires Active(st) && IsPrintable(c) && |st.line| < LINE_MAX
    ensures Run(st, p.(input := [Byte(c)] + p.input), bufferSize)
      == Run(st.(line := st.line + [c], timeout := AT_TIMEOUT_MS, emptyReads := 0), p, bufferSize)
  {
    var p1 := p.(input := [Byte(c)] + p.input);
    assert p1.input[1..] == p.input;
  }

  /**
   * A control byte other than CR and LF (every byte below 0x20 or from 0x80
   * up) discards the line so far; 0x7F, and a printable byte that no longer
   * fits, leave it as it is; either way the budget is restored.
   */
  lemma OtherByteStep(st: ReadState, c: bv8, p: Port, bufferSize: nat)
    requires Active(st) && c != CR && c != LF && !(IsPrintable(c) && |st.line| < LINE_MAX)
    ensures Run(st, p.(input := [Byte(c)] + p.input), bufferSize)
      == Run(st.(line := if IsControl(c) then [] else st.line, timeout := AT_TIMEOUT_MS, emptyReads := 0), p, bufferSize)
  {
    var p1 := p.(input := [Byte(c)] + p.input);
    assert p1.input[1..] == p.input;
  }

  /** The variables after the printable bytes `t` were read. */
  function Appended(st: ReadState, t: seq<bv8>): ReadState
  {
    if t == [] then st else st.(line := st.line + t, timeout := AT_TIMEOUT_MS, emptyReads := 0)
  }

  /** Printable bytes are appended to the line and restore the budget. */
  lemma {:induction false} ReadPrintable(st: ReadState, t: seq<bv8>, p: Port, bufferSize: nat)
    requires Active(st) && AllPrintable(t) && |st.line| + |t| <= LINE_MAX
    decreases |t|
    ensures Run(st, p.(input := ByteEvents(t) + p.input), bufferSize) == Run(Appended(st, t), p, bufferSize)
  {
    if t != [] {
      var c := t[0];
      var rest := p.(input := ByteEvents(t[1..]) + p.input);
      FirstByte(t, p.input);
      PrintableTail(t);
      PrintableStep(st, c, rest, bufferSize);
      var next := st.(line := st.line + [c], timeout := AT_TIMEOUT_MS, emptyReads := 0);
      ReadPrintable(next, t[1..], p, bufferSize);
      AppendedStep(st, t);
    } else {
      assert ByteEvents(t) + p.input == p.input;
    }
  }

  lemma FirstByte(t: seq<bv8>, input: seq<Event>)
    requires t != []
    ensures ByteEvents(t) + input == [Byte(t[0])] + (ByteEvents(t[1..]) + input)
  {
    assert ByteEvents(t) == [Byte(t[0])] + ByteEvents(t[1..]);
  }

  lemma PrintableTail(t: seq<bv8>)
    requires t != [] && AllPrintable(t)
    ensures AllPrintable(t[1..])
  {
    forall i | 0 <= i < |t[1..]|
      ensures IsPrintable(t[1..][i])
    {
      assert t[1..][i] == t[i + 1];
    }
  }

  lemma AppendedStep(st: ReadState, t: seq<bv8>)
    requires t != []
    ensures Appended(st.(line := st.line + [t[0]], timeout := AT_TIMEOUT_MS, emptyReads := 0), t[1..])
      == Appended(st, t)
  {
    if |t| == 1 {
      assert t == [t[0]] && t[1..] == [];
    } else {
      assert st.line + [t[0]] + t[1..] == st.line + t;
    }
  }

  /** A line is a nonempty run of printable bytes that fits the line buffer. */
  predicate IsLine(t: seq<bv8>)
  {
    0 < |t| <= LINE_MAX && AllPrintable(t)
  }

  /** A complete line read from the start of a line, up to its line feed. */
  lemma ReadLine(st: ReadState, t: seq<bv8>, p: Port, bufferSize: nat)
    requires Active(st) && st.line == [] && IsLine(t)
    ensures var q := p.(input := ByteEvents(t + [LF]) + p.input);
      var mid := st.(line := t, timeout := AT_TIMEOUT_MS, emptyReads := 0);
      var (e, q') := Next(p.(input := [Byte(LF)] + p.input));
      Run(st, q, bufferSize) == Run(mid, p.(input := [Byte(LF)] + p.input), bufferSize)
      && e == Byte(LF) && q' == p
  {
    assert ByteEvents(t + [LF]) + p.input == ByteEvents(t) + ([Byte(LF)] + p.input);
    ReadPrintable(st, t, p.(input := [Byte(LF)] + p.input), bufferSize);
    assert st.line + t == t;
    assert Appended(st, t) == st.(line := t, timeout := AT_TIMEOUT_MS, emptyReads := 0);
  }

  /** A complete "OK" line ends the reply as Ok, with the line kept before it. */
  lemma OkLine(st: ReadState, p: Port, bufferSize: nat)
    requires Active(st) && st.line == []
    ensures Run(st, p.(input := ByteEvents(OK_LINE + [LF]) + p.input), bufferSize) == Reply(Ok, st.buffer, p)
  {
    ReadLine(st, OK_LINE, p, bufferSize);
  }

  /** A complete "ERROR" line ends the reply as Error, with the line kept before it. */
  lemma ErrorLine(st: ReadState, p: Port, bufferSize: nat)
    requires Active(st) && st.line == []
    ensures Run(st, p.(input := ByteEvents(ERROR_LINE + [LF]) + p.input), bufferSize) == Reply(Error, st.buffer, p)
  {
    ReadLine(st, ERROR_LINE, p, bufferSize);
  }

  /**
   * A complete '+' line that fits the buffer replaces whatever was kept
   * before it, so the last such line of a reply is the one returned.
   */
  lemma PlusLine(st: ReadState, t: seq<bv8>, p: Port, bufferSize: nat)
    requires Active(st) && st.line == [] && IsLine(t) && t[0] == PLUS && |t| < bufferSize
    ensures Run(st, p.(input := ByteEvents(t + [LF]) + p.input), bufferSize)
      == Run(ReadState([], AT_TIMEOUT_MS, 0, t, true), p, bufferSize)
  {
    ReadLine(st, t, p, bufferSize);
    assert t != OK_LINE && t != ERROR_LINE;
  }

  /**
   * Any other complete line (not "OK", not "ERROR", or a '+' line too long
   * for the buffer) is dropped and leaves the kept line as it was.
   */
  lemma OtherLine(st: ReadState, t: seq<bv8>, p: Port, bufferSize: nat)
    requires Active(st) && st.line == [] && IsLine(t) && t != OK_LINE && t != ERROR_LINE
    requires t[0] != PLUS || |t| >= bufferSize
    ensures Run(st, p.(input := ByteEvents(t + [LF]) + p.input), bufferSize)
      == Run(ReadState([], AT_TIMEOUT_MS, 0, st.buffer, st.got), p, bufferSize)
  {
    ReadLine(st, t, p, bufferSize);
  }

  /** Two '+' lines and then "OK": the reply is Ok and holds the second line. */
  lemma LastPlusLineWins(first: seq<bv8>, second: seq<bv8>, p: Port, bufferSize: nat)
    requires IsLine(first) && first[0] == PLUS && |first| < bufferSize
    requires IsLine(second) && second[0] == PLUS && |second| < bufferSize
    ensures var input := ByteEvents(first + [LF]) + ByteEvents(second + [LF]) + ByteEvents(OK_LINE + [LF]) + p.input;
      ReplyOf(p.(input := input), bufferSize) == Reply(Ok, second, p)
  {
    var tail := ByteEvents(OK_LINE + [LF]) + p.input;
    var p2 := p.(input := ByteEvents(second + [LF]) + tail);
    assert ByteEvents(first + [LF]) + ByteEvents(second + [LF]) + ByteEvents(OK_LINE + [LF]) + p.input
      == ByteEvents(first + [LF]) + p2.input;
    PlusLine(Initial, first, p2, bufferSize);
    var p3 := p.(input := tail);
    PlusLine(ReadState([], AT_TIMEOUT_MS, 0, first, true), second, p3, bufferSize);
    OkLine(ReadState([], AT_TIMEOUT_MS, 0, second, true), p, bufferSize);
  }
}
