/**
 * Sending AT commands: at_send_command, the retrying executor
 * at_execute_command and the start-up handshake at_initialize_device.
 */
module AtCommand {
  import opened Serial
  import opened AtResponse

  const AT_MAX_RETRIES: nat := 5
  const AT_INTER_CMD_DELAY_MS: nat := 200
  const INIT_ROUNDS: nat := 10
  /** "AT\r\n" */
  const AT: seq<bv8> := [0x41, 0x54, 0x0D, 0x0A]

  /** at_send_command: -1 if the write fails; 0 otherwise, after the inter-command pause. */
  function SendCommand(p: Port, command: seq<bv8>): (r: (int, Port))
    ensures r.0 == 0 || r.0 == -1
    ensures r.1.input == p.input
    ensures r.0 == 0 <==> Write(p, command).0 >= 0
  {
    var (n, q) := Write(p, command);
    if n < 0 then (-1, q) else (0, Sleep(q, AT_INTER_CMD_DELAY_MS))
  }

  // ---------------------------------------------------------------------
  // at_execute_command
  // ---------------------------------------------------------------------

  /**
   * The result of at_execute_command: its status, the response buffer, the
   * port, and (for the proofs) how many attempts it made and the reply kind
   * each attempt's read returned.
   */
  datatype Execution = Execution(status: int, response: seq<bv8>, port: Port, attempts: nat, replies: seq<Response>)

  /** Whether at_execute_command tries again after a reply of this kind. */
  predicate Retryable(r: Response)
  {
    r == Error || r == Timeout || r == Invalid
  }

  /** One attempt having been made before `e`, with read result `r`. */
  function After(r: Response, e: Execution): (e': Execution)
    ensures e'.status == e.status && e'.response == e.response && e'.port == e.port
  {
    e.(attempts := e.attempts + 1, replies := [r] + e.replies)
  }

  /**
   * at_execute_command with `retries` attempts left on the port `p`, the
   * response buffer holding `response`.
   */
  function ExecFrom(retries: nat, p: Port, command: seq<bv8>, response: seq<bv8>, bufferSize: nat): Execution
    decreases retries, 2
  {
    if retries == 0 then Execution(-1, response, p, 0, []) else Attempt(retries - 1, p, command, response, bufferSize)
  }

  /** One attempt, `left` more allowed after it: send the command, then read the reply. */
  function Attempt(left: nat, p: Port, command: seq<bv8>, response: seq<bv8>, bufferSize: nat): Execution
    decreases left + 1, 1
  {
    var (sent, q) := SendCommand(p, command);
    if sent < 0 then Execution(-1, response, q, 1, [])
    else OnReply(left, ReplyOf(q, bufferSize), command, bufferSize)
  }

  /** What at_execute_command does with the reply `r` to an attempt, `left` attempts remaining. */
  function OnReply(left: nat, r: Reply, command: seq<bv8>, bufferSize: nat): Execution
    decreases left + 1, 0
  {
    if r.response == Ok then Execution(0, r.buffer, r.port, 1, [Ok])
    else if r.response == Data || left == 0 then Execution(-1, r.buffer, r.port, 1, [r.response])
    else
      var (buffer, q) := Recovery(r, bufferSize);
      After(r.response, ExecFrom(left, q, command, buffer, bufferSize))
  }

  /**
   * The response buffer and the port the next attempt starts from: after a
   * pause, and after a timeout a plain "AT" whose reply is only read.
   */
  function Recovery(r: Reply, bufferSize: nat): (seq<bv8>, Port)
  {
    if r.response == Timeout then
      var reset := ReplyOf(Sleep(SendCommand(r.port, AT).1, 200), bufferSize);
      (reset.buffer, Sleep(reset.port, 500))
    else if r.response == Invalid then (r.buffer, Sleep(r.port, 1000))
    else (r.buffer, Sleep(r.port, 500))
  }

  function Exec(p: Port, command: seq<bv8>, response: seq<bv8>, bufferSize: nat): Execution
  {
    ExecFrom(AT_MAX_RETRIES, p, command, response, bufferSize)
  }

  /** at_execute_command */
  method ExecuteCommand(p: Port, command: seq<bv8>, response: seq<bv8>, bufferSize: nat)
    returns (status: int, responseOut: seq<bv8>, q: Port)
    ensures var e := Exec(p, command, response, bufferSize);
      status == e.status && responseOut == e.response && q == e.port
  {
    var retries := AT_MAX_RETRIES;
    responseOut := response;
    q := p;
    while retries > 0
      invariant var e := ExecFrom(retries, q, command, responseOut, bufferSize);
        var e0 := Exec(p, command, response, bufferSize);
        e.status == e0.status && e.response == e0.response && e.port == e0.port
      decreases retries
    {
      retries := retries - 1;
      ghost var start, held := q, responseOut;
      assert ExecFrom(retries + 1, start, command, held, bufferSize) == Attempt(retries, start, command, held, bufferSize);
      var sent;
      sent, q := SendCommand(q, command).0, SendCommand(q, command).1;
      if sent < 0 {
        return -1, responseOut, q;
      }
      var result;
      ghost var before := q;
      result, responseOut, q := ReadResponse(q, bufferSize);
      ghost var r := Reply(result, responseOut, q);
      assert r == ReplyOf(before, bufferSize);
      assert Attempt(retries, start, command, held, bufferSize) == OnReply(retries, r, command, bufferSize);
      if result == Ok || result == Data || retries == 0 {
        return if result == Ok then 0 else -1, responseOut, q;
      }
      if result == Timeout {
        q := SendCommand(q, AT).1;
        q := Sleep(q, 200);
        var ignored;
        ignored, responseOut, q := ReadResponse(q, bufferSize);
        q := Sleep(q, 500);
      } else if result == Invalid {
        q := Sleep(q, 1000);
      } else {
        q := Sleep(q, 500);
      }
      assert (responseOut, q) == Recovery(r, bufferSize);
    }
    status := -1;
  }

  /** What every run of at_execute_command with `retries` attempts allowed satisfies. */
  predicate Traced(e: Execution, retries: nat)
  {
    (e.status == 0 || e.status == -1)
    && 1 <= e.attempts <= retries
    && (|e.replies| == e.attempts || |e.replies| + 1 == e.attempts)
    && (forall i :: 0 <= i < |e.replies| - 1 ==> Retryable(e.replies[i]))
    && (e.status == 0 <==> (|e.replies| == e.attempts && e.replies[|e.replies| - 1] == Ok))
    && (e.status == -1 && e.attempts < retries ==>
          |e.replies| + 1 == e.attempts || e.replies[|e.replies| - 1] == Data)
  }

  lemma AfterTraced(r: Response, e: Execution, retries: nat)
    requires Retryable(r) && Traced(e, retries)
    ensures Traced(After(r, e), retries + 1)
  {
    var e' := After(r, e);
    assert e'.replies[1..] == e.replies;
    if |e.replies| > 0 {
      assert e'.replies[|e'.replies| - 1] == e.replies[|e.replies| - 1];
    }
    forall i | 0 <= i < |e'.replies| - 1
      ensures Retryable(e'.replies[i])
    {
      if i > 0 {
        assert e'.replies[i] == e.replies[i - 1];
      }
    }
  }

  /**
   * The attempts at_execute_command makes: at least one and at most the
   * retries allowed; every reply before the last asked for a retry; it
   * returns 0 exactly when the last attempt read "OK". It stops early only
   * when a write failed or a reply was Data.
   */
  lemma {:induction false} ExecTrace(retries: nat, p: Port, command: seq<bv8>, response: seq<bv8>, bufferSize: nat)
    requires retries > 0
    decreases retries, 2
    ensures Traced(ExecFrom(retries, p, command, response, bufferSize), retries)
  {
    AttemptTrace(retries - 1, p, command, response, bufferSize);
  }

  lemma {:induction false} AttemptTrace(left: nat, p: Port, command: seq<bv8>, response: seq<bv8>, bufferSize: nat)
    decreases left + 1, 1
    ensures Traced(Attempt(left, p, command, response, bufferSize), left + 1)
  {
    var (sent, q) := SendCommand(p, command);
    if sent >= 0 {
      OnReplyTrace(left, ReplyOf(q, bufferSize), command, bufferSize);
    }
  }

  lemma {:induction false} OnReplyTrace(left: nat, r: Reply, command: seq<bv8>, bufferSize: nat)
    decreases left + 1, 0
    ensures Traced(OnReply(left, r, command, bufferSize), left + 1)
  {
    if r.response != Ok && r.response != Data && left > 0 {
      var (buffer, q) := Recovery(r, bufferSize);
      ExecTrace(left, q, command, buffer, bufferSize);
      AfterTraced(r.response, ExecFrom(left, q, command, buffer, bufferSize), left);
    }
  }

  /** A failed write ends at_execute_command at once with -1 and the buffer untouched. */
  lemma ExecWriteFails(p: Port, command: seq<bv8>, response: seq<bv8>, bufferSize: nat)
    requires Write(p, command).0 < 0
    ensures var e := Exec(p, command, response, bufferSize);
      e.status == -1 && e.response == response && e.attempts == 1
  {
  }

  // ---------------------------------------------------------------------
  // A silent device
  // ---------------------------------------------------------------------

  /** With a device that never answers, every attempt times out and the command fails. */
  lemma {:induction false} ExecSilent(retries: nat, p: Port, command: seq<bv8>, response: seq<bv8>, bufferSize: nat)
    requires retries > 0 && |p.input| == 0 && |p.writes| == 0
    decreases retries
    ensures var e := ExecFrom(retries, p, command, response, bufferSize);
      e.status == -1 && e.attempts == retries && |e.replies| == retries
      && (forall i :: 0 <= i < retries ==> e.replies[i] == Timeout)
  {
    var q := SendCommand(p, command).1;
    SilentTimeout(q, bufferSize);
    var r := ReplyOf(q, bufferSize);
    assert ExecFrom(retries, p, command, response, bufferSize)
      == Attempt(retries - 1, p, command, response, bufferSize)
      == OnReply(retries - 1, r, command, bufferSize);
    if retries > 1 {
      var q2 := Sleep(SendCommand(r.port, AT).1, 200);
      SilentTimeout(q2, bufferSize);
      var (buffer, q3) := Recovery(r, bufferSize);
      ExecSilent(retries - 1, q3, command, buffer, bufferSize);
      var next := ExecFrom(retries - 1, q3, command, buffer, bufferSize);
      var e := After(Timeout, next);
      assert e == ExecFrom(retries, p, command, response, bufferSize);
      forall i | 0 <= i < retries
        ensures e.replies[i] == Timeout
      {
        if i > 0 {
          assert e.replies[i] == next.replies[i - 1];
        }
      }
    }
  }

  // ---------------------------------------------------------------------
  // at_initialize_device
  // ---------------------------------------------------------------------

  /**
   * The result of at_initialize_device: its status, the port, and (for the
   * proofs) the statuses of the "AT" commands of each round.
   */
  datatype Handshake = Handshake(status: int, port: Port, rounds: seq<seq<int>>)

  /** One round: the statuses of its "AT" commands and the port after it. */
  datatype Round = Round(statuses: seq<int>, port: Port)

  /** Whether a round confirmed the device: two "AT" commands in a row that succeeded. */
  predicate Confirmed(statuses: seq<int>)
  {
    statuses == [0, 0]
  }

  /**
   * Round `i` (counting from 0): "AT", and if that succeeds, after a pause,
   * "AT" again; a round that does not confirm the device ends with a pause
   * growing by half a second per round.
   */
  function PlayRound(i: nat, p: Port): Round
  {
    var first := Exec(Sleep(p, 200), AT, [], AT_BUFFER_SIZE);
    if first.status != 0 then Round([first.status], Sleep(first.port, 500 * (i + 1)))
    else
      var second := Exec(Sleep(first.port, 200), AT, first.response, AT_BUFFER_SIZE);
      if second.status == 0 then Round([0, 0], second.port)
      else Round([0, second.status], Sleep(second.port, 500 * (i + 1)))
  }

  /** The rounds of at_initialize_device from round `i` on. */
  function InitFrom(i: nat, p: Port): Handshake
    decreases INIT_ROUNDS - i, 1
  {
    if i >= INIT_ROUNDS then Handshake(-1, p, []) else InitAt(i, p)
  }

  /** Round `i`, and the rounds after it unless it confirmed the device. */
  function InitAt(i: nat, p: Port): Handshake
    requires i < INIT_ROUNDS
    decreases INIT_ROUNDS - i, 0
  {
    var round := PlayRound(i, p);
    if Confirmed(round.statuses) then Handshake(0, round.port, [round.statuses])
    else
      var rest := InitFrom(i + 1, round.port);
      rest.(rounds := [round.statuses] + rest.rounds)
  }

  /** at_initialize_device, after its one-second start-up pause. */
  function Init(p: Port): Handshake
  {
    InitFrom(0, Sleep(p, 1000))
  }

  /** at_initialize_device */
  method InitializeDevice(p: Port) returns (status: int, q: Port)
    ensures status == Init(p).status && q == Init(p).port
  {
    q := Sleep(p, 1000);
    ghost var goal := Init(p);
    var i := 0;
    while i < INIT_ROUNDS
      invariant i <= INIT_ROUNDS
      invariant SameOutcome(InitFrom(i, q), goal)
      decreases INIT_ROUNDS - i
    {
      var confirmed;
      confirmed, q := CommunicationRound(i, q, goal);
      if confirmed {
        return 0, q;
      }
      i := i + 1;
    }
    status := -1;
  }

  /** Two handshakes that end with the same status on the same port. */
  predicate SameOutcome(a: Handshake, b: Handshake)
  {
    a.status == b.status && a.port == b.port
  }

  /**
   * The body of the at_initialize_device loop: whether round `i` confirmed
   * the device, and the port the next round starts from if it did not.
   */
  method CommunicationRound(i: nat, p: Port, ghost goal: Handshake) returns (confirmed: bool, q: Port)
    requires i < INIT_ROUNDS && SameOutcome(InitFrom(i, p), goal)
    ensures confirmed ==> goal.status == 0 && goal.port == q
    ensures !confirmed ==> SameOutcome(InitFrom(i + 1, q), goal)
  {
    ghost var round := PlayRound(i, p);
    assert InitFrom(i, p) == InitAt(i, p);
    q := Sleep(p, 200);
    var first, response;
    first, response, q := ExecuteCommand(q, AT, [], AT_BUFFER_SIZE);
    if first == 0 {
      q := Sleep(q, 200);
      var second;
      second, response, q := ExecuteCommand(q, AT, response, AT_BUFFER_SIZE);
      if second == 0 {
        assert Confirmed(round.statuses) && q == round.port;
        return true, q;
      }
    }
    q := Sleep(q, 500 * (i + 1));
    assert !Confirmed(round.statuses) && q == round.port;
    confirmed := false;
  }

  /** What every run of at_initialize_device's rounds, `n` of them allowed, satisfies. */
  predicate Settled(h: Handshake, n: nat)
  {
    (h.status == 0 || h.status == -1)
    && 1 <= |h.rounds| <= n
    && (forall k :: 0 <= k < |h.rounds| - 1 ==> !Confirmed(h.rounds[k]))
    && (h.status == 0 <==> Confirmed(h.rounds[|h.rounds| - 1]))
    && (h.status == -1 ==> |h.rounds| == n && forall k :: 0 <= k < n ==> !Confirmed(h.rounds[k]))
  }

  /**
   * The handshake makes at most ten rounds; it succeeds exactly when its
   * last round confirmed the device, every earlier round failed to, and it
   * fails only after ten rounds none of which confirmed it.
   */
  lemma {:induction false} InitTrace(i: nat, p: Port)
    requires i < INIT_ROUNDS
    decreases INIT_ROUNDS - i
    ensures Settled(InitFrom(i, p), INIT_ROUNDS - i)
  {
    var round := PlayRound(i, p);
    assert InitFrom(i, p) == InitAt(i, p);
    if !Confirmed(round.statuses) {
      var rest := InitFrom(i + 1, round.port);
      if i + 1 < INIT_ROUNDS {
        InitTrace(i + 1, round.port);
        SettledStep(round.statuses, rest, INIT_ROUNDS - i);
      }
    }
  }

  /** A round that did not confirm the device, in front of a settled run of the later rounds. */
  lemma SettledStep(statuses: seq<int>, rest: Handshake, n: nat)
    requires !Confirmed(statuses) && n > 1 && Settled(rest, n - 1)
    ensures Settled(rest.(rounds := [statuses] + rest.rounds), n)
  {
    var h := rest.(rounds := [statuses] + rest.rounds);
    assert h.rounds[|h.rounds| - 1] == rest.rounds[|rest.rounds| - 1];
    forall k | 0 <= k < |h.rounds|
      ensures k < |h.rounds| - 1 || h.status == -1 ==> !Confirmed(h.rounds[k])
    {
      if k > 0 {
        assert h.rounds[k] == rest.rounds[k - 1];
      }
    }
  }

  /** A round confirms the device only when both of its "AT" commands succeeded. */
  lemma RoundConfirms(i: nat, p: Port)
    ensures var round := PlayRound(i, p);
      var first := Exec(Sleep(p, 200), AT, [], AT_BUFFER_SIZE);
      Confirmed(round.statuses) <==>
        first.status == 0 && Exec(Sleep(first.port, 200), AT, first.response, AT_BUFFER_SIZE).status == 0
  {
  }
}
