/**
 * The two ways flex-fsk-tx hands a page to the radio once it answers:
 * remote encoding (at_send_flex_message_remote: "AT+MSG=<capcode>", then the
 * message text, then a long wait for "OK") and local encoding
 * (at_send_flex_message_local: "AT+SEND=<size>", then the encoded bytes in
 * chunks of at most 32, then "OK"). Both first configure the radio and then
 * make up to three whole attempts, each starting with a plain "AT".
 */
module Transfer {
  import opened Serial
  import opened AtResponse
  import opened AtCommand
  import opened Numbers

  const SEND_ATTEMPTS: nat := 3
  const CHUNK_SIZE: nat := 32
  /** AT_DATA_SEND_TIMEOUT, in milliseconds; the chunk loop compares whole seconds. */
  const AT_DATA_SEND_TIMEOUT: nat := 20000
  /** AT_MSG_SEND_TIMEOUT, in milliseconds, spent in steps of one second. */
  const AT_MSG_SEND_TIMEOUT: int := 35000
  const WAIT_STEP_MS: int := 1000
  const CHUNK_PAUSE_MS: nat := 5
  const SETTLE_MS: nat := 5000

  const CRLF: seq<bv8> := [CR, LF]
  /** "AT+MSG=" */
  const MSG_PREFIX: seq<bv8> := [0x41, 0x54, 0x2B, 0x4D, 0x53, 0x47, 0x3D]
  /** "AT+SEND=" */
  const SEND_PREFIX: seq<bv8> := [0x41, 0x54, 0x2B, 0x53, 0x45, 0x4E, 0x44, 0x3D]
  /** "AT+POWER=" */
  const POWER_PREFIX: seq<bv8> := [0x41, 0x54, 0x2B, 0x50, 0x4F, 0x57, 0x45, 0x52, 0x3D]
  /** "AT+MAILDROP=1\r\n" */
  const MAILDROP_COMMAND: seq<bv8> := [0x41, 0x54, 0x2B, 0x4D, 0x41, 0x49, 0x4C, 0x44, 0x52, 0x4F, 0x50, 0x3D, 0x31, 0x0D, 0x0A]
  /** "+MSG: READY" */
  const MSG_READY: seq<bv8> := [0x2B, 0x4D, 0x53, 0x47, 0x3A, 0x20, 0x52, 0x45, 0x41, 0x44, 0x59]
  /** "+SEND: READY" */
  const SEND_READY: seq<bv8> := [0x2B, 0x53, 0x45, 0x4E, 0x44, 0x3A, 0x20, 0x52, 0x45, 0x41, 0x44, 0x59]

  /**
   * The radio settings: the frequency command as formatted from the
   * configured frequency, the transmit power, and the mail-drop flag.
   */
  datatype Settings = Settings(freqCommand: seq<bv8>, power: int, mailDrop: bool)

  /** What is sent: a capcode and its text for the radio to encode, or an already encoded transmission. */
  datatype Job = Remote(capcode: nat, message: seq<bv8>) | Local(data: seq<bv8>)

  /** How far one attempt got. */
  datatype Stage = CommandFailed | NotReady | DataFailed | NotCompleted | Completed

  /** The result of a send flow: its status, the port, and the stage each attempt reached. */
  datatype Sending = Sending(status: int, port: Port, stages: seq<Stage>)

  /** The result of one attempt: how far it got and the port afterwards. */
  datatype Try = Try(stage: Stage, port: Port)

  // ---------------------------------------------------------------------
  // Commands
  // ---------------------------------------------------------------------

  /** "AT+POWER=%d\r\n" */
  function PowerCommand(power: int): seq<bv8>
  {
    POWER_PREFIX + (if power < 0 then [Numbers.MINUS] + Numbers.Decimal(-power) else Numbers.Decimal(power)) + CRLF
  }

  /** The command that opens an attempt: "AT+MSG=<capcode>\r\n" or "AT+SEND=<size>\r\n". */
  function CommandLine(job: Job): seq<bv8>
  {
    match job
    case Remote(capcode, _) => MSG_PREFIX + Numbers.Decimal(capcode) + CRLF
    case Local(data) => SEND_PREFIX + Numbers.Decimal(|data|) + CRLF
  }

  /** The text that the readiness reply must contain. */
  function Marker(job: Job): seq<bv8>
  {
    if job.Remote? then MSG_READY else SEND_READY
  }

  /** strstr(s, t) != NULL */
  predicate Contains(s: seq<bv8>, t: seq<bv8>)
  {
    exists i :: 0 <= i <= |s| && MatchesAt(s, t, i)
  }

  /** `t` occurs in `s` at index `i`. */
  predicate MatchesAt(s: seq<bv8>, t: seq<bv8>, i: nat)
  {
    i + |t| <= |s| && s[i..i + |t|] == t
  }

  /** The device said it is ready: a Data reply whose kept line contains the marker. */
  predicate Ready(r: Reply, marker: seq<bv8>)
  {
    r.response == Data && Contains(r.buffer, marker)
  }

  /** The pause before the next attempt: one second after a failed command write, two otherwise. */
  function Pause(stage: Stage): nat
  {
    if stage == CommandFailed then 1000 else 2000
  }

  // ---------------------------------------------------------------------
  // Configuration
  // ---------------------------------------------------------------------

  /**
   * The radio configuration: the frequency, the power and, when asked
   * for, the mail-drop flag, each by at_execute_command; the first failure
   * ends it.
   */
  function Configured(p: Port, settings: Settings, mailDrop: bool): (r: (bool, Port))
  {
    var freq := Exec(p, settings.freqCommand, [], AT_BUFFER_SIZE);
    if freq.status < 0 then (false, freq.port)
    else
      var power := Exec(freq.port, PowerCommand(settings.power), freq.response, AT_BUFFER_SIZE);
      if power.status < 0 then (false, power.port)
      else if !mailDrop then (true, power.port)
      else
        var drop := Exec(power.port, MAILDROP_COMMAND, power.response, AT_BUFFER_SIZE);
        (drop.status >= 0, drop.port)
  }

  method Configure(p: Port, settings: Settings, mailDrop: bool) returns (ok: bool, q: Port)
    ensures (ok, q) == Configured(p, settings, mailDrop)
  {
    var status, response;
    status, response, q := ExecuteCommand(p, settings.freqCommand, [], AT_BUFFER_SIZE);
    if status < 0 {
      return false, q;
    }
    status, response, q := ExecuteCommand(q, PowerCommand(settings.power), response, AT_BUFFER_SIZE);
    if status < 0 {
      return false, q;
    }
    if mailDrop {
      status, response, q := ExecuteCommand(q, MAILDROP_COMMAND, response, AT_BUFFER_SIZE);
      if status < 0 {
        return false, q;
      }
    }
    ok := true;
  }

  /** An at_execute_command run that ended on "OK": its last attempt read a reply, and it was "OK". */
  predicate Confirmed(e: Execution)
  {
    0 < |e.replies| == e.attempts && e.replies[|e.replies| - 1] == Ok
  }

  /**
   * The configuration succeeds exactly when every command it issues is
   * confirmed by "OK": the frequency, then the power, then (only when asked
   * for) the mail drop. The first command that is not confirmed ends it,
   * with the port as that command left it, so nothing after it is written.
   */
  lemma ConfiguredConfirms(p: Port, settings: Settings, mailDrop: bool)
    ensures var freq := Exec(p, settings.freqCommand, [], AT_BUFFER_SIZE);
      var power := Exec(freq.port, PowerCommand(settings.power), freq.response, AT_BUFFER_SIZE);
      var drop := Exec(power.port, MAILDROP_COMMAND, power.response, AT_BUFFER_SIZE);
      (Configured(p, settings, mailDrop).0 <==> Confirmed(freq) && Confirmed(power) && (mailDrop ==> Confirmed(drop)))
      && (!Confirmed(freq) ==> Configured(p, settings, mailDrop) == (false, freq.port))
      && (Confirmed(freq) && !Confirmed(power) ==> Configured(p, settings, mailDrop) == (false, power.port))
  {
    var freq := Exec(p, settings.freqCommand, [], AT_BUFFER_SIZE);
    var power := Exec(freq.port, PowerCommand(settings.power), freq.response, AT_BUFFER_SIZE);
    ExecConfirmed(p, settings.freqCommand, []);
    ExecConfirmed(freq.port, PowerCommand(settings.power), freq.response);
    ExecConfirmed(power.port, MAILDROP_COMMAND, power.response);
  }

  /** at_execute_command succeeds exactly when its run ends on "OK". */
  lemma ExecConfirmed(p: Port, command: seq<bv8>, response: seq<bv8>)
    ensures var e := Exec(p, command, response, AT_BUFFER_SIZE);
      e.status >= 0 <==> Confirmed(e)
  {
    ExecTrace(AT_MAX_RETRIES, p, command, response, AT_BUFFER_SIZE);
  }

  /**
   * The mail-drop command comes last: asking for it can turn a successful
   * configuration into a failed one but never the reverse, and when the
   * configuration fails before it the flag changes nothing, since
   * "AT+MAILDROP=1" is then never sent.
   */
  lemma MailDropLast(p: Port, settings: Settings)
    ensures Configured(p, settings, true).0 ==> Configured(p, settings, false).0
    ensures !Configured(p, settings, false).0 ==> Configured(p, settings, true) == Configured(p, settings, false)
  {
  }

  /**
   * With a device that never answers, the configuration fails on the
   * frequency command once all five of its attempts have timed out, and no
   * later command is sent.
   */
  lemma ConfiguredSilent(p: Port, settings: Settings, mailDrop: bool)
    requires |p.input| == 0 && |p.writes| == 0
    ensures var freq := Exec(p, settings.freqCommand, [], AT_BUFFER_SIZE);
      Configured(p, settings, mailDrop) == (false, freq.port)
      && freq.attempts == |freq.replies| == AT_MAX_RETRIES
      && (forall i :: 0 <= i < AT_MAX_RETRIES ==> freq.replies[i] == Timeout)
  {
    ExecSilent(AT_MAX_RETRIES, p, settings.freqCommand, [], AT_BUFFER_SIZE);
  }

  // ---------------------------------------------------------------------
  // The remote flow's wait for completion
  // ---------------------------------------------------------------------

  /** Whether the wait saw "OK", the port after it, and how many one-second steps it took. */
  datatype Waited = Waited(complete: bool, port: Port, steps: nat)

  /**
   * The completion wait with `remaining` milliseconds left: a poll that
   * finds nothing costs a step; a poll that finds input reads a reply,
   * which ends the wait on "OK" (complete) or "ERROR" (failed) and
   * otherwise costs a step.
   */
  function Wait(remaining: int, p: Port): Waited
    decreases remaining
  {
    if remaining <= 0 then Waited(false, p, 0)
    else if !InputReady(p) then
      var w := Wait(remaining - WAIT_STEP_MS, Next(p).1);
      w.(steps := w.steps + 1)
    else
      var r := ReplyOf(p, AT_BUFFER_SIZE);
      if r.response == Ok then Waited(true, r.port, 1)
      else if r.response == Error then Waited(false, r.port, 1)
      else
        var w := Wait(remaining - WAIT_STEP_MS, r.port);
        w.(steps := w.steps + 1)
  }

  /** The completion wait of at_send_flex_message_remote. */
  method WaitCompletion(p: Port) returns (complete: bool, q: Port)
    ensures complete == Wait(AT_MSG_SEND_TIMEOUT, p).complete && q == Wait(AT_MSG_SEND_TIMEOUT, p).port
  {
    var remaining := AT_MSG_SEND_TIMEOUT;
    q := p;
    while remaining > 0
      invariant Wait(remaining, q).complete == Wait(AT_MSG_SEND_TIMEOUT, p).complete
      invariant Wait(remaining, q).port == Wait(AT_MSG_SEND_TIMEOUT, p).port
      decreases remaining
    {
      if InputReady(q) {
        var result, buffer;
        result, buffer, q := ReadResponse(q, AT_BUFFER_SIZE);
        if result == Ok {
          return true, q;
        } else if result == Error {
          return false, q;
        }
      } else {
        q := Next(q).1;
      }
      remaining := remaining - WAIT_STEP_MS;
    }
    complete := false;
  }

  /** The wait takes at least one and at most ceil(remaining / 1000) steps, and it only consumes input. */
  lemma {:induction false} WaitBound(remaining: int, p: Port)
    decreases remaining
    ensures var w := Wait(remaining, p);
      (remaining > 0 ==> 1 <= w.steps <= (remaining + WAIT_STEP_MS - 1) / WAIT_STEP_MS)
      && w.port == p.(input := w.port.input)
  {
    if remaining > 0 {
      if !InputReady(p) {
        WaitBound(remaining - WAIT_STEP_MS, Next(p).1);
      } else {
        var r := ReplyOf(p, AT_BUFFER_SIZE);
        RunShape(Initial, p, AT_BUFFER_SIZE);
        if r.response != Ok && r.response != Error {
          WaitBound(remaining - WAIT_STEP_MS, r.port);
        }
      }
    }
  }

  /** The remote completion wait runs at most 35 one-second steps. */
  lemma WaitSteps(p: Port)
    ensures 1 <= Wait(AT_MSG_SEND_TIMEOUT, p).steps <= 35
  {
    WaitBound(AT_MSG_SEND_TIMEOUT, p);
  }

  /** A silent device never completes the wait, which then spends all its steps. */
  lemma {:induction false} WaitSilent(remaining: int, p: Port)
    requires |p.input| == 0
    decreases remaining
    ensures Wait(remaining, p).complete == false && Wait(remaining, p).port == p
  {
    if remaining > 0 {
      WaitSilent(remaining - WAIT_STEP_MS, p);
    }
  }

  // ---------------------------------------------------------------------
  // The local flow's chunk loop
  // ---------------------------------------------------------------------

  /** Whether all bytes went out, how many did, the port, and the size of every chunk offered. */
  datatype Pushed = Pushed(ok: bool, sent: nat, port: Port, offered: seq<nat>)

  /** The size of the next chunk: 32 bytes, or what is left. */
  function ChunkSize(size: nat, sent: nat): nat
    requires sent <= size
  {
    if size - sent > CHUNK_SIZE then CHUNK_SIZE else size - sent
  }

  /**
   * The chunk loop from `sent` bytes on, `start` being the second it began:
   * a failed write or a loop running more than 20 s fails it; a short write
   * is picked up where it stopped.
   */
  function Push(sent: nat, p: Port, data: seq<bv8>, start: nat): Pushed
    requires sent <= |data|
    decreases |p.writes|, |data| - sent, 1
  {
    if sent == |data| then Pushed(true, sent, p, []) else PushChunk(sent, p, data, start)
  }

  /** One pass of the chunk loop, and the passes after it. */
  function PushChunk(sent: nat, p: Port, data: seq<bv8>, start: nat): Pushed
    requires sent < |data|
    decreases |p.writes|, |data| - sent, 0
  {
    var chunk := ChunkSize(|data|, sent);
    var (written, q) := Write(p, data[sent..sent + chunk]);
    if written < 0 then Pushed(false, sent, q, [chunk])
    else if Seconds(q) - start > AT_DATA_SEND_TIMEOUT / 1000 then Pushed(false, sent + written, q, [chunk])
    else
      var rest := Push(sent + written, Sleep(q, CHUNK_PAUSE_MS), data, start);
      rest.(offered := [chunk] + rest.offered)
  }

  /** The chunk loop of at_send_flex_message_local. */
  method PushData(p: Port, data: seq<bv8>) returns (ok: bool, sent: nat, q: Port)
    ensures var r := Push(0, p, data, Seconds(p));
      ok == r.ok && sent == r.sent && q == r.port
  {
    ghost var goal := Push(0, p, data, Seconds(p));
    var start := Seconds(p);
    sent := 0;
    q := p;
    while sent < |data|
      invariant sent <= |data|
      invariant var r := Push(sent, q, data, start);
        r.ok == goal.ok && r.sent == goal.sent && r.port == goal.port
      decreases |q.writes|, |data| - sent
    {
      assert Push(sent, q, data, start) == PushChunk(sent, q, data, start);
      var chunk := ChunkSize(|data|, sent);
      var written;
      written, q := Write(q, data[sent..sent + chunk]).0, Write(q, data[sent..sent + chunk]).1;
      if written < 0 {
        return false, sent, q;
      }
      sent := sent + written;
      if Seconds(q) - start > AT_DATA_SEND_TIMEOUT / 1000 {
        return false, sent, q;
      }
      q := Sleep(q, CHUNK_PAUSE_MS);
    }
    ok := true;
  }

  /** The chunk loop never sends more than there is, all of it when it succeeds, and reads nothing. */
  lemma {:induction false} PushShape(sent: nat, p: Port, data: seq<bv8>, start: nat)
    requires sent <= |data|
    decreases |p.writes|, |data| - sent
    ensures var r := Push(sent, p, data, start);
      sent <= r.sent <= |data| && (r.ok ==> r.sent == |data|) && r.port.input == p.input
  {
    if sent < |data| {
      assert Push(sent, p, data, start) == PushChunk(sent, p, data, start);
      var chunk := ChunkSize(|data|, sent);
      var w := Write(p, data[sent..sent + chunk]);
      if w.0 >= 0 && Seconds(w.1) - start <= AT_DATA_SEND_TIMEOUT / 1000 {
        PushShape(sent + w.0, Sleep(w.1, CHUNK_PAUSE_MS), data, start);
      }
    }
  }

  /**
   * The bytes that went out are exactly the data from `sent` on, in order:
   * a line holding `base` and the first `sent` bytes ends up holding `base`
   * and every byte sent.
   */
  lemma {:induction false} PushWire(sent: nat, p: Port, data: seq<bv8>, start: nat, base: seq<bv8>)
    requires sent <= |data| && p.wire == base + data[..sent]
    decreases |p.writes|, |data| - sent
    ensures var r := Push(sent, p, data, start);
      r.sent <= |data| && r.port.wire == base + data[..r.sent]
  {
    if sent < |data| {
      assert Push(sent, p, data, start) == PushChunk(sent, p, data, start);
      var w := Write(p, data[sent..sent + ChunkSize(|data|, sent)]);
      ChunkWire(sent, p, data, base);
      if w.0 >= 0 && Seconds(w.1) - start <= AT_DATA_SEND_TIMEOUT / 1000 {
        PushWire(sent + w.0, Sleep(w.1, CHUNK_PAUSE_MS), data, start, base);
      }
    }
  }

  /** One chunk written, in part or in full, extends the line by the next bytes of the data. */
  lemma ChunkWire(sent: nat, p: Port, data: seq<bv8>, base: seq<bv8>)
    requires sent < |data| && p.wire == base + data[..sent]
    ensures var w := Write(p, data[sent..sent + ChunkSize(|data|, sent)]);
      w.0 >= 0 ==> sent + w.0 <= |data| && w.1.wire == base + data[..sent + w.0]
  {
    var chunk := ChunkSize(|data|, sent);
    var w := Write(p, data[sent..sent + chunk]);
    if w.0 >= 0 {
      WireExtends(w.1.wire, base, data, sent, chunk, w.0);
    }
  }

  /** The first `k` bytes of the chunk at `sent`, written after `data[..sent]`, give `data[..sent + k]`. */
  lemma WireExtends(wire: seq<bv8>, base: seq<bv8>, data: seq<bv8>, sent: nat, chunk: nat, k: nat)
    requires sent + chunk <= |data| && k <= chunk
    requires wire == (base + data[..sent]) + data[sent..sent + chunk][..k]
    ensures wire == base + data[..sent + k]
  {
    assert data[sent..sent + chunk][..k] == data[sent..sent + k];
    assert data[..sent] + data[sent..sent + k] == data[..sent + k];
  }

  /** Every chunk size is between 1 and 32. */
  predicate ChunksFit(offered: seq<nat>)
  {
    forall k :: 0 <= k < |offered| ==> 1 <= offered[k] <= CHUNK_SIZE
  }

  /** Every chunk the loop offers to write is 1 to 32 bytes long. */
  lemma {:induction false} PushChunks(sent: nat, p: Port, data: seq<bv8>, start: nat)
    requires sent <= |data|
    decreases |p.writes|, |data| - sent
    ensures ChunksFit(Push(sent, p, data, start).offered)
  {
    if sent < |data| {
      assert Push(sent, p, data, start) == PushChunk(sent, p, data, start);
      var chunk := ChunkSize(|data|, sent);
      var (written, q) := Write(p, data[sent..sent + chunk]);
      if written >= 0 && Seconds(q) - start <= AT_DATA_SEND_TIMEOUT / 1000 {
        PushChunks(sent + written, Sleep(q, CHUNK_PAUSE_MS), data, start);
        var rest := Push(sent + written, Sleep(q, CHUNK_PAUSE_MS), data, start);
        var offered := [chunk] + rest.offered;
        assert Push(sent, p, data, start).offered == offered;
        forall k | 0 <= k < |offered|
          ensures 1 <= offered[k] <= CHUNK_SIZE
        {
          if k > 0 {
            assert offered[k] == rest.offered[k - 1];
          }
        }
      }
    }
  }

  // ---------------------------------------------------------------------
  // One attempt
  // ---------------------------------------------------------------------

  /** The start of an attempt: the reset "AT" (whatever its result), then the write of the opening command. */
  function Commanded(job: Job, p: Port): (int, Port)
  {
    Write(Exec(p, AT, [], AT_BUFFER_SIZE).port, CommandLine(job))
  }

  /** The reply to the opening command. */
  function Readiness(job: Job, p: Port): Reply
  {
    ReplyOf(Commanded(job, p).1, AT_BUFFER_SIZE)
  }

  /** One attempt of the remote flow, without the pause after it. */
  function RemoteTry(capcode: nat, message: seq<bv8>, p: Port): Try
  {
    var job := Remote(capcode, message);
    var (sent, q) := Commanded(job, p);
    if sent < 0 then Try(CommandFailed, q)
    else
      var r := Readiness(job, p);
      if !Ready(r, MSG_READY) then Try(NotReady, r.port)
      else
        var (text, q2) := Write(r.port, message);
        if text < 0 then Try(DataFailed, q2)
        else
          var (end, q3) := Write(q2, CRLF);
          if end < 0 then Try(DataFailed, q3)
          else
            var w := Wait(AT_MSG_SEND_TIMEOUT, q3);
            Try(if w.complete then Completed else NotCompleted, w.port)
  }

  /** One attempt of the local flow, without the pause after it. */
  function LocalTry(data: seq<bv8>, p: Port): Try
  {
    var job := Local(data);
    var (sent, q) := Commanded(job, p);
    if sent < 0 then Try(CommandFailed, q)
    else
      var r := Readiness(job, p);
      if !Ready(r, SEND_READY) then Try(NotReady, r.port)
      else
        var pushed := Push(0, r.port, data, Seconds(r.port));
        if !pushed.ok then Try(DataFailed, pushed.port)
        else
          var done := ReplyOf(Sleep(pushed.port, SETTLE_MS), AT_BUFFER_SIZE);
          Try(if done.response == Ok then Completed else NotCompleted, done.port)
  }

  function TryJob(job: Job, p: Port): Try
  {
    match job
    case Remote(capcode, message) => RemoteTry(capcode, message, p)
    case Local(data) => LocalTry(data, p)
  }

  /** The body of the remote flow's attempt loop, up to the pause. */
  method TryRemote(capcode: nat, message: seq<bv8>, p: Port) returns (stage: Stage, q: Port)
    ensures Try(stage, q) == RemoteTry(capcode, message, p)
  {
    var status, response;
    status, response, q := ExecuteCommand(p, AT, [], AT_BUFFER_SIZE);
    var written;
    written, q := Write(q, CommandLine(Remote(capcode, message))).0, Write(q, CommandLine(Remote(capcode, message))).1;
    if written < 0 {
      return CommandFailed, q;
    }
    var result;
    result, response, q := ReadResponse(q, AT_BUFFER_SIZE);
    if result != Data || !Contains(response, MSG_READY) {
      return NotReady, q;
    }
    written, q := Write(q, message).0, Write(q, message).1;
    if written < 0 {
      return DataFailed, q;
    }
    written, q := Write(q, CRLF).0, Write(q, CRLF).1;
    if written < 0 {
      return DataFailed, q;
    }
    var complete;
    complete, q := WaitCompletion(q);
    stage := if complete then Completed else NotCompleted;
  }

  /** The body of the local flow's attempt loop, up to the pause. */
  method TryLocal(data: seq<bv8>, p: Port) returns (stage: Stage, q: Port)
    ensures Try(stage, q) == LocalTry(data, p)
  {
    var status, response;
    status, response, q := ExecuteCommand(p, AT, [], AT_BUFFER_SIZE);
    var written;
    written, q := Write(q, CommandLine(Local(data))).0, Write(q, CommandLine(Local(data))).1;
    if written < 0 {
      return CommandFailed, q;
    }
    var result;
    result, response, q := ReadResponse(q, AT_BUFFER_SIZE);
    if result != Data || !Contains(response, SEND_READY) {
      return NotReady, q;
    }
    var ok, sent;
    ok, sent, q := PushData(q, data);
    if !ok {
      return DataFailed, q;
    }
    q := Sleep(q, SETTLE_MS);
    result, response, q := ReadResponse(q, AT_BUFFER_SIZE);
    stage := if result == Ok then Completed else NotCompleted;
  }

  // ---------------------------------------------------------------------
  // The attempt loop
  // ---------------------------------------------------------------------

  /** The attempt loop with `tries` attempts left. */
  function SendFrom(tries: nat, job: Job, p: Port): Sending
    decreases tries, 1
  {
    if tries == 0 then Sending(-1, p, []) else SendAttempt(tries - 1, job, p)
  }

  /** One attempt, `left` more allowed after it. */
  function SendAttempt(left: nat, job: Job, p: Port): Sending
    decreases left + 1, 0
  {
    var t := TryJob(job, p);
    if t.stage == Completed then Sending(0, t.port, [Completed])
    else if left == 0 then Sending(-1, t.port, [t.stage])
    else
      var rest := SendFrom(left, job, Sleep(t.port, Pause(t.stage)));
      rest.(stages := [t.stage] + rest.stages)
  }

  /** A send flow: the configuration, then up to three attempts. */
  function Send(job: Job, settings: Settings, p: Port): Sending
  {
    var (ok, q) := Configured(p, settings, job.Remote? && settings.mailDrop);
    if !ok then Sending(-1, q, []) else SendFrom(SEND_ATTEMPTS, job, q)
  }

  /**
   * The body of the remote flow's attempt loop with `left` attempts
   * remaining after this one: whether the flow ends here, with which
   * status, and the port.
   */
  method RemoteRound(left: nat, capcode: nat, message: seq<bv8>, p: Port, ghost goal: Sending)
    returns (done: bool, status: int, q: Port)
    requires SameEnd(SendFrom(left + 1, Remote(capcode, message), p), goal)
    ensures done ==> status == goal.status && q == goal.port
    ensures !done ==> left > 0 && SameEnd(SendFrom(left, Remote(capcode, message), q), goal)
  {
    assert SendFrom(left + 1, Remote(capcode, message), p) == SendAttempt(left, Remote(capcode, message), p);
    var stage;
    stage, q := TryRemote(capcode, message, p);
    if stage == Completed {
      return true, 0, q;
    }
    if left == 0 {
      return true, -1, q;
    }
    q := Sleep(q, Pause(stage));
    done, status := false, -1;
  }

  /** The body of the local flow's attempt loop, as RemoteRound is for the remote flow. */
  method LocalRound(left: nat, data: seq<bv8>, p: Port, ghost goal: Sending)
    returns (done: bool, status: int, q: Port)
    requires SameEnd(SendFrom(left + 1, Local(data), p), goal)
    ensures done ==> status == goal.status && q == goal.port
    ensures !done ==> left > 0 && SameEnd(SendFrom(left, Local(data), q), goal)
  {
    assert SendFrom(left + 1, Local(data), p) == SendAttempt(left, Local(data), p);
    var stage;
    stage, q := TryLocal(data, p);
    if stage == Completed {
      return true, 0, q;
    }
    if left == 0 {
      return true, -1, q;
    }
    q := Sleep(q, Pause(stage));
    done, status := false, -1;
  }

  /** Two runs that end with the same status on the same port. */
  predicate SameEnd(a: Sending, b: Sending)
  {
    a.status == b.status && a.port == b.port
  }

  /** at_send_flex_message_remote */
  method SendRemote(p: Port, settings: Settings, capcode: nat, message: seq<bv8>) returns (status: int, q: Port)
    ensures var s := Send(Remote(capcode, message), settings, p);
      status == s.status && q == s.port
  {
    var ok;
    ok, q := Configure(p, settings, settings.mailDrop);
    if !ok {
      return -1, q;
    }
    ghost var goal := SendFrom(SEND_ATTEMPTS, Remote(capcode, message), q);
    var tries := SEND_ATTEMPTS;
    while tries > 0
      invariant SameEnd(SendFrom(tries, Remote(capcode, message), q), goal)
      decreases tries
    {
      tries := tries - 1;
      var done;
      done, status, q := RemoteRound(tries, capcode, message, q, goal);
      if done {
        return;
      }
    }
    status := -1;
  }

  /** at_send_flex_message_local */
  method SendLocal(p: Port, settings: Settings, data: seq<bv8>) returns (status: int, q: Port)
    ensures var s := Send(Local(data), settings, p);
      status == s.status && q == s.port
  {
    var ok;
    ok, q := Configure(p, settings, false);
    if !ok {
      return -1, q;
    }
    ghost var goal := SendFrom(SEND_ATTEMPTS, Local(data), q);
    var tries := SEND_ATTEMPTS;
    while tries > 0
      invariant SameEnd(SendFrom(tries, Local(data), q), goal)
      decreases tries
    {
      tries := tries - 1;
      var done;
      done, status, q := LocalRound(tries, data, q, goal);
      if done {
        return;
      }
    }
    status := -1;
  }

  // ---------------------------------------------------------------------
  // Properties
  // ---------------------------------------------------------------------

  /** What every run of the attempt loop with `tries` attempts allowed satisfies. */
  predicate Flowed(s: Sending, tries: nat)
  {
    (s.status == 0 || s.status == -1)
    && 1 <= |s.stages| <= tries
    && (forall k :: 0 <= k < |s.stages| - 1 ==> s.stages[k] != Completed)
    && (s.status == 0 <==> s.stages[|s.stages| - 1] == Completed)
    && (s.status == -1 ==> |s.stages| == tries)
  }

  /** An attempt that did not complete, in front of a run of the later attempts. */
  lemma FlowedStep(stage: Stage, rest: Sending, tries: nat)
    requires stage != Completed && Flowed(rest, tries)
    ensures Flowed(rest.(stages := [stage] + rest.stages), tries + 1)
  {
    var s := rest.(stages := [stage] + rest.stages);
    assert s.stages[|s.stages| - 1] == rest.stages[|rest.stages| - 1];
    forall k | 0 <= k < |s.stages| - 1
      ensures s.stages[k] != Completed
    {
      if k > 0 {
        assert s.stages[k] == rest.stages[k - 1];
      }
    }
  }

  /**
   * The attempt loop makes at least one and at most `tries` attempts; it
   * returns 0 exactly when the last one completed, every earlier one having
   * failed, and -1 only once all attempts are spent.
   */
  lemma {:induction false} SendFromTrace(tries: nat, job: Job, p: Port)
    requires tries > 0
    decreases tries, 1
    ensures Flowed(SendFrom(tries, job, p), tries)
  {
    SendAttemptTrace(tries - 1, job, p);
  }

  lemma {:induction false} SendAttemptTrace(left: nat, job: Job, p: Port)
    decreases left + 1, 0
    ensures Flowed(SendAttempt(left, job, p), left + 1)
  {
    var t := TryJob(job, p);
    if t.stage != Completed && left > 0 {
      var q := Sleep(t.port, Pause(t.stage));
      SendFromTrace(left, job, q);
      FlowedStep(t.stage, SendFrom(left, job, q), left);
    }
  }

  /**
   * A send flow either fails in the configuration, before any attempt, or
   * makes one to three attempts with the outcome Flowed describes.
   */
  lemma SendTrace(job: Job, settings: Settings, p: Port)
    ensures var s := Send(job, settings, p);
      (s.status == -1 && s.stages == []) || Flowed(s, SEND_ATTEMPTS)
  {
    var (ok, q) := Configured(p, settings, job.Remote? && settings.mailDrop);
    if ok {
      SendFromTrace(SEND_ATTEMPTS, job, q);
    }
  }

  /**
   * Nothing but the opening command goes out unless the device answered it
   * with its READY line, and every attempt that went on to send had that
   * answer.
   */
  lemma ReadyBeforeData(job: Job, p: Port)
    ensures var t := TryJob(job, p);
      (t.stage == CommandFailed || t.stage == NotReady ==> t.port.wire == Commanded(job, p).1.wire)
      && (t.stage == DataFailed || t.stage == NotCompleted || t.stage == Completed ==>
            Commanded(job, p).0 >= 0 && Ready(Readiness(job, p), Marker(job)))
  {
    RunShape(Initial, Commanded(job, p).1, AT_BUFFER_SIZE);
  }

  /**
   * A completed local attempt put every byte of the data on the line, in
   * order and once, after the READY reply, and nothing else.
   */
  lemma LocalDataOnWire(data: seq<bv8>, p: Port)
    ensures var t := LocalTry(data, p);
      t.stage == Completed ==> t.port.wire == Readiness(Local(data), p).port.wire + data
  {
    var job := Local(data);
    var t := LocalTry(data, p);
    if t.stage == Completed {
      var r := Readiness(job, p);
      ReadyBeforeData(job, p);
      PushShape(0, r.port, data, Seconds(r.port));
      assert r.port.wire == r.port.wire + data[..0];
      PushWire(0, r.port, data, Seconds(r.port), r.port.wire);
      var pushed := Push(0, r.port, data, Seconds(r.port));
      assert data[..|data|] == data;
      RunShape(Initial, Sleep(pushed.port, SETTLE_MS), AT_BUFFER_SIZE);
    }
  }

  /**
   * A completed remote attempt whose writes were all taken in full put the
   * message and its line end on the line after the READY reply, and nothing
   * else.
   */
  lemma RemoteTextOnWire(capcode: nat, message: seq<bv8>, p: Port)
    requires |Readiness(Remote(capcode, message), p).port.writes| == 0
    ensures var t := RemoteTry(capcode, message, p);
      t.stage == Completed ==> t.port.wire == Readiness(Remote(capcode, message), p).port.wire + message + CRLF
  {
    var job := Remote(capcode, message);
    var t := RemoteTry(capcode, message, p);
    if t.stage == Completed {
      var r := Readiness(job, p);
      var q3 := Write(Write(r.port, message).1, CRLF).1;
      WaitBound(AT_MSG_SEND_TIMEOUT, q3);
    }
  }

  /** The number an opening command carries: the capcode, or the size of the data. */
  function Argument(job: Job): nat
  {
    match job
    case Remote(capcode, _) => capcode
    case Local(data) => |data|
  }

  /**
   * The opening command is its prefix, the number in decimal and CR LF, and
   * the number reads back through str2uint64 whenever it fits 64 bits.
   */
  lemma CommandRoundTrip(job: Job)
    requires Argument(job) <= Numbers.UINT64_MAX
    ensures var line := CommandLine(job);
      var prefix := if job.Remote? then MSG_PREFIX else SEND_PREFIX;
      |prefix| + 2 < |line| && line[..|prefix|] == prefix && line[|line| - 2..] == CRLF
      && Numbers.Str2Uint64(0, line[|prefix|..|line| - 2]) == Numbers.Stored(0, Argument(job))
  {
    var line := CommandLine(job);
    var prefix := if job.Remote? then MSG_PREFIX else SEND_PREFIX;
    var digits := Numbers.Decimal(Argument(job));
    assert line == prefix + digits + CRLF;
    assert line[|prefix|..|line| - 2] == digits;
    Numbers.Str2Uint64Decimal(0, Argument(job));
  }

  /** The power command carries the power in decimal, which str2int reads back. */
  lemma PowerRoundTrip(power: int)
    requires Numbers.INT_MIN <= power <= Numbers.INT_MAX
    ensures var line := PowerCommand(power);
      |POWER_PREFIX| + 2 < |line| && line[..|POWER_PREFIX|] == POWER_PREFIX && line[|line| - 2..] == CRLF
      && Numbers.Str2Int(0, line[|POWER_PREFIX|..|line| - 2]) == Numbers.Stored(0, power)
  {
    var line := PowerCommand(power);
    var number := if power < 0 then [Numbers.MINUS] + Numbers.Decimal(-power) else Numbers.Decimal(power);
    assert line == POWER_PREFIX + number + CRLF;
    assert line[|POWER_PREFIX|..|line| - 2] == number;
    Numbers.Str2IntDecimal(0, power);
  }
}
