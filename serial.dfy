/**
 * The serial line to the radio, as flex-fsk-tx sees it through poll, read,
 * write and the sleeps between them. The port is a value threaded through
 * the operations: a script of what the device sends, a script of what
 * writes return, every byte written so far, and a millisecond clock.
 */
module Serial {
  /** What one poll of the line yields and, when it reports input, the one-byte read after it. */
  datatype Event =
    | PollFailed   // poll returned a negative value
    | PollIdle     // poll returned 0: nothing arrived within the interval
    | PollNoInput  // poll returned a positive value without POLLIN
    | ReadFailed   // poll reported input, read returned a negative value
    | ReadNothing  // poll reported input, read returned 0
    | Byte(c: bv8) // poll reported input, read returned this byte

  /** What one write to the line returns: a failure or the number of bytes taken. */
  datatype WriteResult = WriteFailed | Wrote(n: nat)

  /**
   * `input` is what the device will still send; once it is exhausted the
   * line is silent. `writes` is what the coming writes return; once it is
   * exhausted every write takes all its bytes. `wire` holds every byte
   * written so far, `clock` the time in milliseconds.
   */
  datatype Port = Port(input: seq<Event>, writes: seq<WriteResult>, wire: seq<bv8>, clock: nat)

  /** Whether a poll finds input waiting (the poll in the completion wait of the remote send flow). */
  predicate InputReady(p: Port)
  {
    |p.input| > 0 && (p.input[0].ReadFailed? || p.input[0].ReadNothing? || p.input[0].Byte?)
  }

  /** `q` is `p` after reading: an end of its input is left, and nothing else changed. */
  predicate Consumed(p: Port, q: Port)
  {
    q == p.(input := q.input) && |q.input| <= |p.input| && q.input == p.input[|p.input| - |q.input|..]
  }

  /** Reading twice is reading. */
  lemma ConsumedTwice(p: Port, q: Port, r: Port)
    requires Consumed(p, q) && Consumed(q, r)
    ensures Consumed(p, r)
  {
    assert r.input == p.input[|p.input| - |q.input|..][|q.input| - |r.input|..];
  }

  /**
   * The next event and the port after it. At most one scripted event is
   * consumed, and the event returned together with what is left is exactly
   * the script before; only the input changes. A silent line yields PollIdle
   * and stays as it was.
   */
  function Next(p: Port): (r: (Event, Port))
    ensures Consumed(p, r.1)
    ensures |p.input| > 0 ==> p.input == [r.0] + r.1.input && r.1.input == p.input[1..]
    ensures |p.input| == 0 ==> r.0 == PollIdle && r.1 == p
  {
    if |p.input| == 0 then (PollIdle, p) else (p.input[0], p.(input := p.input[1..]))
  }

  /**
   * write(fd, bytes, |bytes|): -1 on failure, otherwise the number of bytes
   * taken (never more than offered), which are appended to the wire.
   */
  function Write(p: Port, bytes: seq<bv8>): (r: (int, Port))
    ensures r.1 == p.(writes := r.1.writes, wire := r.1.wire)
    ensures r.0 == -1 || 0 <= r.0 <= |bytes|
    ensures r.0 == -1 ==> r.1.wire == p.wire
    ensures r.0 >= 0 ==> r.1.wire == p.wire + bytes[..r.0]
    ensures |p.writes| == 0 ==> r == (|bytes|, p.(wire := p.wire + bytes))
    ensures |p.writes| > 0 ==> r.1.writes == p.writes[1..]
  {
    if |p.writes| == 0 then (|bytes|, p.(wire := p.wire + bytes))
    else
      var rest := p.writes[1..];
      match p.writes[0]
      case WriteFailed => (-1, p.(writes := rest))
      case Wrote(n) =>
        var k := if n < |bytes| then n else |bytes|;
        (k, p.(writes := rest, wire := p.wire + bytes[..k]))
  }

  /** usleep / sleep: the clock moves on by `ms` milliseconds and nothing else changes. */
  function Sleep(p: Port, ms: nat): Port
  {
    p.(clock := p.clock + ms)
  }

  /** time(NULL): whole seconds on the clock. */
  function Seconds(p: Port): nat
  {
    p.clock / 1000
  }
}
