/** Runtime/Client.cs as functions on values: the flags and timers of the
    connection to the server, and what one iteration of the loop of
    ClientRoutine does with them. Writes and callbacks are recorded in a log.
    The class in module Client is proved to follow these functions. */
module ClientLogic {
  import opened Outcomes
  import opened Strings
  import C = MultiplayerConstants
  import opened MultiplayerCommand
  import opened Framer

  /** The serialized fields of the component, and the password handed to
      Connect. */
  datatype Config = Config(pingInterval: int, password: Text, ignoreMessageHandlerExceptions: bool)

  /** What the client did that can be observed from outside. */
  datatype Event =
    | Sent(line: Text)
    | AuthenticatedSuccessfully(clientId: nat)  // OnAuthenticatedSuccessfully
    | MessageReceived(message: Text)            // OnMessageReceived
    | HandlerFailed(fault: Fault)               // "Command handler threw"
    | SendFailed(fault: Fault)                  // "Error sending message to server"
    | ServerClosed                              // OnServerClosed

  /** The fields _running and _authenticated and the property
      PingMilliseconds, the locals of ClientRoutine (times in milliseconds),
      and whether the routine has ended. */
  datatype ClientState = ClientState(
    running: bool,
    authenticated: bool,
    authenticationRequired: bool,
    timeUntilPing: int,
    lastPing: int,
    pingMilliseconds: int,
    buffer: Text,
    closed: bool,
    log: seq<Event>)

  /** The state when ClientRoutine starts, at time `now`. */
  function Initial(now: int): ClientState {
    ClientState(true, false, false, 0, now, 0, [], false, [])
  }

  function PingCommand(): Command { NameOnly(C.Ping) }
  function AuthCommand(password: Text): Command { Command(C.Auth, [password]) }
  function MessageCommand(message: Text): Command { Command(C.Message, [message]) }

  /** The state after a statement, and whether the statement threw. */
  datatype Done = Done(state: ClientState, outcome: Outcome)

  /** SendCommandToServer: the command and a newline, written to the stream,
      which throws when `broken` or once it has been closed. */
  function SendCommand(s: ClientState, c: Command, broken: bool): Done {
    if broken || s.closed then Done(s, Fail(WriteFailed))
    else Done(s.(log := s.log + [Sent(WireLine(c))]), Pass)
  }

  /** The body of the per-command try block of ClientRoutine. */
  function Dispatch(s: ClientState, line: Text, now: int): Done {
    match ParseLine(line)
    case Err(f) => Done(s, Fail(f))
    case Ok(cmd) =>
      if cmd.name == C.AuthStatus then AuthStatus(s, cmd.args)
      else if cmd.name == C.Heartbeat then Done(s, Pass)
      else if cmd.name == C.PingResponse then Done(s.(pingMilliseconds := now - s.lastPing), Pass)
      else if cmd.name == C.Message then
        if |cmd.args| == 0 then Done(s, Fail(IndexOutOfRange))
        else Done(s.(log := s.log + [MessageReceived(cmd.args[0])]), Pass)
      else Done(s, Pass)
  }

  /** The inner switch on the sub-status of authstatus. */
  function AuthStatus(s: ClientState, args: seq<Text>): Done {
    if |args| == 0 then Done(s, Fail(IndexOutOfRange))
    else if args[0] == C.AuthStatusRequired then Done(s.(authenticationRequired := true), Pass)
    else if args[0] == C.AuthStatusSuccess then
      if s.authenticated then Done(s, Pass)
      else
        var s1 := s.(authenticated := true, authenticationRequired := false);
        if |args| < 2 then Done(s1, Fail(IndexOutOfRange))
        else match ParseUInt(args[1])
          case Err(f) => Done(s1, Fail(f))
          case Ok(id) => Done(s1.(log := s1.log + [AuthenticatedSuccessfully(id)]), Pass)
    else if args[0] == C.AuthStatusError then
      var s1 := s.(running := false);
      if |args| < 2 then Done(s1, Fail(IndexOutOfRange)) else Done(s1, Pass)
    else Done(s, Pass)
  }

  /** The state after a batch of lines, and whether the routine survives it. */
  datatype Processed = Processed(state: ClientState, alive: bool)

  /** The foreach over the released lines, with the same policy as the
      server: a failing line is logged, and ends the routine unless
      ignoreMessageHandlerExceptions is set. */
  function ProcessLines(cfg: Config, s: ClientState, lines: seq<Text>, now: int): Processed
    decreases |lines|
  {
    if |lines| == 0 then Processed(s, true)
    else
      var d := Dispatch(s, lines[0], now);
      if d.outcome.Pass? then ProcessLines(cfg, d.state, lines[1..], now)
      else
        var s1 := d.state.(log := d.state.log + [HandlerFailed(d.outcome.fault)]);
        if cfg.ignoreMessageHandlerExceptions then ProcessLines(cfg, s1, lines[1..], now)
        else Processed(s1, false)
  }

  /** The finally block of ClientRoutine. */
  function Close(s: ClientState): ClientState {
    s.(closed := true, log := s.log + [ServerClosed])
  }

  /** One turn of while (_running): the exit when _running is false, the
      ping countdown (only while authenticated), the password when one was
      asked for, then at most one read and the lines it releases. Any
      exception outside the per-command handler ends the routine. */
  function Step(cfg: Config, s: ClientState, elapsed: nat, now: int, input: Input, broken: bool): ClientState
    requires !s.closed
  {
    if !s.running then Close(s)
    else
      var d1 := PingPart(cfg, s, elapsed, now, broken);
      if d1.outcome.Fail? then Close(d1.state)
      else
        var d2 := AuthPart(cfg, d1.state, broken);
        if d2.outcome.Fail? then Close(d2.state)
        else
          match input
          case Idle => d2.state
          case ReadFailed => Close(d2.state)
          case Data(chunk) =>
            var f := Feed(d2.state.buffer, chunk);
            var p := ProcessLines(cfg, d2.state.(buffer := f.buffer), f.lines, now);
            if p.alive then p.state else Close(p.state)
  }

  /** The countdown runs only while authenticated; at zero it is reset, the
      time is recorded and a ping is sent. */
  function PingPart(cfg: Config, s: ClientState, elapsed: nat, now: int, broken: bool): Done {
    if !s.authenticated then Done(s, Pass)
    else
      var t := s.timeUntilPing - elapsed;
      if t <= 0 then SendCommand(s.(timeUntilPing := cfg.pingInterval, lastPing := now), PingCommand(), broken)
      else Done(s.(timeUntilPing := t), Pass)
  }

  /** A pending request for the password is answered once. */
  function AuthPart(cfg: Config, s: ClientState, broken: bool): Done {
    if !s.authenticated && s.authenticationRequired then
      var d := SendCommand(s, AuthCommand(cfg.password), broken);
      if d.outcome.Fail? then d else Done(d.state.(authenticationRequired := false), Pass)
    else Done(s, Pass)
  }

  /** SendMessageToServer: refused before authentication; a failure is
      logged, not propagated. */
  function SendMessage(s: ClientState, message: Text, broken: bool): ClientState {
    if !s.authenticated then s.(log := s.log + [SendFailed(ClientNotAuthenticated)])
    else
      var d := SendCommand(s, MessageCommand(message), broken);
      if d.outcome.Fail? then d.state.(log := d.state.log + [SendFailed(d.outcome.fault)]) else d.state
  }

  /** Disconnect only clears _running. */
  function Disconnect(s: ClientState): ClientState {
    s.(running := false)
  }

  // ---------------------------------------------------------------------
  // Framing of the state changes.

  /** What every statement of a running routine does: the routine stays
      open, authentication is never lost, and the log only grows, by events
      that are neither OnServerClosed nor a failed send; everything written
      is ASCII, and OnAuthenticatedSuccessfully runs at most once, and only
      on the step that authenticates. */
  predicate Local(s: ClientState, t: ClientState) {
    && !s.closed && !t.closed
    && (s.authenticated ==> t.authenticated)
    && |s.log| <= |t.log| && t.log[..|s.log|] == s.log
    && (forall i :: |s.log| <= i < |t.log| ==> LocalEvent(s, t, t.log[i]))
    && (forall i, j :: |s.log| <= i < j < |t.log| && t.log[i].AuthenticatedSuccessfully? ==> !t.log[j].AuthenticatedSuccessfully?)
  }

  predicate LocalEvent(s: ClientState, t: ClientState, e: Event) {
    && !e.ServerClosed? && !e.SendFailed?
    && (e.Sent? ==> IsAscii(e.line))
    && (e.AuthenticatedSuccessfully? ==> t.authenticated && !s.authenticated)
  }

  lemma LocalRefl(s: ClientState)
    requires !s.closed
    ensures Local(s, s)
  {
    assert s.log[..|s.log|] == s.log;
  }

  lemma LocalTrans(s: ClientState, t: ClientState, u: ClientState)
    requires Local(s, t) && Local(t, u)
    ensures Local(s, u)
  {
    assert u.log[..|t.log|][..|s.log|] == u.log[..|s.log|];
    forall i | |s.log| <= i < |u.log| ensures LocalEvent(s, u, u.log[i]) {
      if i < |t.log| {
        assert u.log[i] == t.log[i];
        assert LocalEvent(s, t, t.log[i]);
      } else {
        assert LocalEvent(t, u, u.log[i]);
      }
    }
    forall i, j | |s.log| <= i < j < |u.log| && u.log[i].AuthenticatedSuccessfully?
      ensures !u.log[j].AuthenticatedSuccessfully?
    {
      if j < |t.log| {
        assert u.log[i] == t.log[i] && u.log[j] == t.log[j];
      } else if i < |t.log| {
        assert u.log[i] == t.log[i];
        assert LocalEvent(s, t, t.log[i]);
        assert LocalEvent(t, u, u.log[j]);
      }
    }
  }

  /** Appending one event keeps a step local. */
  lemma LocalAppend(s: ClientState, t: ClientState, e: Event)
    requires !s.closed && !t.closed && t.log == s.log && (s.authenticated ==> t.authenticated)
    requires LocalEvent(s, t.(log := t.log + [e]), e)
    ensures Local(s, t.(log := t.log + [e]))
  {
    assert (s.log + [e])[..|s.log|] == s.log;
  }

  /** A change of fields that leaves the log and the flags' monotonicity
      alone is local. */
  lemma LocalFields(s: ClientState, t: ClientState)
    requires !s.closed && !t.closed && t.log == s.log && (s.authenticated ==> t.authenticated)
    ensures Local(s, t)
  {
    assert s.log[..|s.log|] == s.log;
  }

  // The lines the client sends are ASCII.

  lemma NamesAscii()
    ensures IsAscii(C.Ping) && IsAscii(C.Auth) && IsAscii(C.Message)
  {
    C.CommandNamesAreTokens();
    assert C.CommandNames()[3] == C.Ping && C.CommandNames()[4] == C.Auth && C.CommandNames()[5] == C.Message;
  }

  lemma SendCommandFrame(s: ClientState, c: Command, broken: bool)
    requires !s.closed && IsAscii(c.name)
    ensures Local(s, SendCommand(s, c, broken).state)
  {
    if broken {
      LocalRefl(s);
    } else {
      WireLineAscii(c);
      LocalAppend(s, s, Sent(WireLine(c)));
    }
  }

  lemma AuthStatusFrame(s: ClientState, args: seq<Text>)
    requires !s.closed
    ensures Local(s, AuthStatus(s, args).state)
  {
    var d := AuthStatus(s, args);
    if |args| > 0 && args[0] == C.AuthStatusSuccess && !s.authenticated && |args| >= 2 && ParseUInt(args[1]).Ok? {
      var s1 := s.(authenticated := true, authenticationRequired := false);
      assert d.state == s1.(log := s1.log + [AuthenticatedSuccessfully(ParseUInt(args[1]).value)]);
      LocalAppend(s, s1, AuthenticatedSuccessfully(ParseUInt(args[1]).value));
    } else {
      assert d.state.log == s.log && (s.authenticated ==> d.state.authenticated) && !d.state.closed;
      LocalFields(s, d.state);
    }
  }

  lemma DispatchFrame(s: ClientState, line: Text, now: int)
    requires !s.closed
    ensures Local(s, Dispatch(s, line, now).state)
  {
    match ParseLine(line)
    case Err(_) => LocalRefl(s);
    case Ok(cmd) =>
      if cmd.name == C.AuthStatus {
        AuthStatusFrame(s, cmd.args);
      } else if cmd.name != C.Heartbeat && cmd.name != C.PingResponse && cmd.name == C.Message && |cmd.args| > 0 {
        LocalAppend(s, s, MessageReceived(cmd.args[0]));
      } else {
        LocalFields(s, Dispatch(s, line, now).state);
      }
  }

  lemma {:induction false} ProcessLinesFrame(cfg: Config, s: ClientState, lines: seq<Text>, now: int)
    requires !s.closed
    ensures Local(s, ProcessLines(cfg, s, lines, now).state)
    decreases |lines|
  {
    if |lines| == 0 {
      LocalRefl(s);
    } else {
      var d := Dispatch(s, lines[0], now);
      DispatchFrame(s, lines[0], now);
      if d.outcome.Pass? {
        ProcessLinesFrame(cfg, d.state, lines[1..], now);
        LocalTrans(s, d.state, ProcessLines(cfg, d.state, lines[1..], now).state);
      } else {
        var s1 := d.state.(log := d.state.log + [HandlerFailed(d.outcome.fault)]);
        LocalAppend(d.state, d.state, HandlerFailed(d.outcome.fault));
        LocalTrans(s, d.state, s1);
        if cfg.ignoreMessageHandlerExceptions {
          ProcessLinesFrame(cfg, s1, lines[1..], now);
          LocalTrans(s, s1, ProcessLines(cfg, s1, lines[1..], now).state);
        }
      }
    }
  }

  lemma PingPartFrame(cfg: Config, s: ClientState, elapsed: nat, now: int, broken: bool)
    requires !s.closed
    ensures Local(s, PingPart(cfg, s, elapsed, now, broken).state)
  {
    var t := s.timeUntilPing - elapsed;
    if s.authenticated && t <= 0 {
      var s1 := s.(timeUntilPing := cfg.pingInterval, lastPing := now);
      LocalFields(s, s1);
      NamesAscii();
      SendCommandFrame(s1, PingCommand(), broken);
      LocalTrans(s, s1, SendCommand(s1, PingCommand(), broken).state);
    } else {
      LocalFields(s, PingPart(cfg, s, elapsed, now, broken).state);
    }
  }

  lemma AuthPartFrame(cfg: Config, s: ClientState, broken: bool)
    requires !s.closed
    ensures Local(s, AuthPart(cfg, s, broken).state)
  {
    if !s.authenticated && s.authenticationRequired {
      NamesAscii();
      SendCommandFrame(s, AuthCommand(cfg.password), broken);
      var d := SendCommand(s, AuthCommand(cfg.password), broken);
      if d.outcome.Pass? {
        LocalFields(d.state, d.state.(authenticationRequired := false));
        LocalTrans(s, d.state, d.state.(authenticationRequired := false));
      }
    } else {
      LocalRefl(s);
    }
  }

  // ---------------------------------------------------------------------
  // The invariant.

  /** OnServerClosed runs exactly when the routine has ended, once, and
      after it nothing happens but failed sends. */
  predicate ClosedInv(s: ClientState) {
    && (forall i :: 0 <= i < |s.log| && s.log[i].ServerClosed? ==> s.closed)
    && (forall i, j :: 0 <= i < j < |s.log| && s.log[i].ServerClosed? ==> s.log[j].SendFailed?)
    && (s.closed ==> exists i :: 0 <= i < |s.log| && s.log[i].ServerClosed?)
  }

  /** OnAuthenticatedSuccessfully runs at most once, and only for a client
      that is authenticated; everything written is ASCII. */
  predicate AuthInv(s: ClientState) {
    && (forall i :: 0 <= i < |s.log| && s.log[i].AuthenticatedSuccessfully? ==> s.authenticated)
    && (forall i, j :: 0 <= i < j < |s.log| && s.log[i].AuthenticatedSuccessfully? ==> !s.log[j].AuthenticatedSuccessfully?)
    && (forall i :: 0 <= i < |s.log| && s.log[i].Sent? ==> IsAscii(s.log[i].line))
  }

  predicate Inv(s: ClientState) {
    ClosedInv(s) && AuthInv(s)
  }

  lemma InitialInv(now: int)
    ensures Inv(Initial(now))
  {
  }

  lemma LocalInv(s: ClientState, t: ClientState)
    requires Inv(s) && Local(s, t)
    ensures Inv(t)
  {
    forall i | 0 <= i < |t.log| ensures !t.log[i].ServerClosed? {
      if i < |s.log| { assert t.log[i] == s.log[i]; } else { assert LocalEvent(s, t, t.log[i]); }
    }
    forall i | 0 <= i < |t.log| && t.log[i].AuthenticatedSuccessfully? ensures t.authenticated {
      if i < |s.log| { assert t.log[i] == s.log[i]; } else { assert LocalEvent(s, t, t.log[i]); }
    }
    forall i, j | 0 <= i < j < |t.log| && t.log[i].AuthenticatedSuccessfully?
      ensures !t.log[j].AuthenticatedSuccessfully?
    {
      if j < |s.log| {
        assert t.log[i] == s.log[i] && t.log[j] == s.log[j];
      } else if i < |s.log| {
        assert t.log[i] == s.log[i];
        assert LocalEvent(s, t, t.log[j]);
      }
    }
    forall i | 0 <= i < |t.log| && t.log[i].Sent? ensures IsAscii(t.log[i].line) {
      if i < |s.log| { assert t.log[i] == s.log[i]; } else { assert LocalEvent(s, t, t.log[i]); }
    }
  }

  lemma CloseInv(s: ClientState)
    requires Inv(s) && !s.closed
    ensures Inv(Close(s))
  {
    var t := Close(s);
    assert t.log[|s.log|].ServerClosed?;
    forall i | 0 <= i < |s.log| ensures !t.log[i].ServerClosed? {
      assert t.log[i] == s.log[i];
    }
    forall i, j | 0 <= i < j < |t.log| && t.log[i].AuthenticatedSuccessfully?
      ensures !t.log[j].AuthenticatedSuccessfully?
    {
      assert t.log[i] == s.log[i];
      if j < |s.log| { assert t.log[j] == s.log[j]; }
    }
  }

  lemma StepInv(cfg: Config, s: ClientState, elapsed: nat, now: int, input: Input, broken: bool)
    requires Inv(s) && !s.closed
    ensures Inv(Step(cfg, s, elapsed, now, input, broken))
  {
    if !s.running {
      CloseInv(s);
    } else {
      var d1 := PingPart(cfg, s, elapsed, now, broken);
      PingPartFrame(cfg, s, elapsed, now, broken);
      LocalInv(s, d1.state);
      if d1.outcome.Fail? {
        CloseInv(d1.state);
      } else {
        var d2 := AuthPart(cfg, d1.state, broken);
        AuthPartFrame(cfg, d1.state, broken);
        LocalInv(d1.state, d2.state);
        if d2.outcome.Fail? {
          CloseInv(d2.state);
        } else {
          match input
          case Idle =>
          case ReadFailed => CloseInv(d2.state);
          case Data(chunk) =>
            var f := Feed(d2.state.buffer, chunk);
            var s3 := d2.state.(buffer := f.buffer);
            LocalFields(d2.state, s3);
            LocalInv(d2.state, s3);
            var p := ProcessLines(cfg, s3, f.lines, now);
            ProcessLinesFrame(cfg, s3, f.lines, now);
            LocalInv(s3, p.state);
            if !p.alive { CloseInv(p.state); }
        }
      }
    }
  }

  lemma SendMessageInv(s: ClientState, message: Text, broken: bool)
    requires Inv(s)
    ensures Inv(SendMessage(s, message, broken))
  {
    var d := SendCommand(s, MessageCommand(message), broken);
    if s.authenticated && !broken && !s.closed {
      NamesAscii();
      SendCommandFrame(s, MessageCommand(message), broken);
      LocalInv(s, d.state);
    } else {
      var t := SendMessage(s, message, broken);
      assert t.log == s.log + [t.log[|s.log|]] && t.log[|s.log|].SendFailed?;
      assert t.closed == s.closed && t.authenticated == s.authenticated;
      forall i, j | 0 <= i < j < |t.log| && t.log[i].AuthenticatedSuccessfully?
        ensures !t.log[j].AuthenticatedSuccessfully?
      {
        assert t.log[i] == s.log[i];
        if j < |s.log| { assert t.log[j] == s.log[j]; }
      }
      if s.closed {
        var k :| 0 <= k < |s.log| && s.log[k].ServerClosed?;
        assert t.log[k].ServerClosed?;
      }
    }
  }

  lemma DisconnectInv(s: ClientState)
    requires Inv(s)
    ensures Inv(Disconnect(s))
  {
  }

  // ---------------------------------------------------------------------
  // Dispatch of one line.

  lemma NamesDistinct()
    ensures C.AuthStatus != C.Heartbeat && C.AuthStatus != C.PingResponse && C.AuthStatus != C.Message
    ensures C.Heartbeat != C.PingResponse && C.Heartbeat != C.Message && C.PingResponse != C.Message
    ensures C.AuthStatusRequired != C.AuthStatusSuccess && C.AuthStatusRequired != C.AuthStatusError
    ensures C.AuthStatusSuccess != C.AuthStatusError
  {
    C.CommandNamesAreTokens();
    assert C.CommandNames()[0] == C.Heartbeat && C.CommandNames()[1] == C.PingResponse;
    assert C.CommandNames()[2] == C.AuthStatus && C.CommandNames()[5] == C.Message;
    C.SubStatusesDistinct();
    assert C.SubStatuses()[0] == C.AuthStatusRequired && C.SubStatuses()[1] == C.AuthStatusError;
    assert C.SubStatuses()[2] == C.AuthStatusSuccess;
  }

  /** authstatus required only records that the password is wanted. */
  lemma DispatchRequired(s: ClientState, line: Text, now: int, rest: seq<Text>)
    requires ParseLine(line) == Ok(Command(C.AuthStatus, [C.AuthStatusRequired] + rest))
    ensures Dispatch(s, line, now) == Done(s.(authenticationRequired := true), Pass)
  {
  }

  /** The first authstatus success authenticates the client, withdraws the
      pending password and hands the id the server sent to
      OnAuthenticatedSuccessfully. */
  lemma DispatchFirstSuccess(s: ClientState, line: Text, now: int, id: nat)
    requires !s.authenticated && id <= UInt32Max
    requires ParseLine(line) == Ok(Command(C.AuthStatus, [C.AuthStatusSuccess, ToDecimal(id)]))
    ensures Dispatch(s, line, now) ==
      Done(s.(authenticated := true, authenticationRequired := false, log := s.log + [AuthenticatedSuccessfully(id)]), Pass)
  {
    NamesDistinct();
    ParseUIntToDecimal(id);
  }

  /** A success whose id is missing or not a uint still authenticates the
      client, but OnAuthenticatedSuccessfully is not called and the line
      fails. */
  lemma DispatchSuccessBadId(s: ClientState, line: Text, now: int, args: seq<Text>)
    requires !s.authenticated && |args| > 0 && args[0] == C.AuthStatusSuccess
    requires |args| < 2 || ParseUInt(args[1]).Err?
    requires ParseLine(line) == Ok(Command(C.AuthStatus, args))
    ensures var d := Dispatch(s, line, now);
      && d.outcome.Fail? && d.state == s.(authenticated := true, authenticationRequired := false)
  {
    NamesDistinct();
  }

  /** A later success changes nothing. */
  lemma DispatchLaterSuccess(s: ClientState, line: Text, now: int, rest: seq<Text>)
    requires s.authenticated
    requires ParseLine(line) == Ok(Command(C.AuthStatus, [C.AuthStatusSuccess] + rest))
    ensures Dispatch(s, line, now) == Done(s, Pass)
  {
    NamesDistinct();
  }

  /** authstatus error stops the loop; only a missing reason makes the line
      fail as well. */
  lemma DispatchError(s: ClientState, line: Text, now: int, rest: seq<Text>)
    requires ParseLine(line) == Ok(Command(C.AuthStatus, [C.AuthStatusError] + rest))
    ensures Dispatch(s, line, now) == Done(s.(running := false), if |rest| == 0 then Fail(IndexOutOfRange) else Pass)
  {
    NamesDistinct();
  }

  /** An unknown sub-status changes nothing; a missing one fails. */
  lemma DispatchUnknownStatus(s: ClientState, line: Text, now: int, args: seq<Text>)
    requires ParseLine(line) == Ok(Command(C.AuthStatus, args))
    requires |args| == 0 || args[0] !in {C.AuthStatusRequired, C.AuthStatusSuccess, C.AuthStatusError}
    ensures Dispatch(s, line, now) == Done(s, if |args| == 0 then Fail(IndexOutOfRange) else Pass)
  {
  }

  /** pong measures the time since the last ping. */
  lemma DispatchPong(s: ClientState, line: Text, now: int)
    requires ParseLine(line).Ok? && ParseLine(line).value.name == C.PingResponse
    ensures Dispatch(s, line, now) == Done(s.(pingMilliseconds := now - s.lastPing), Pass)
  {
    NamesDistinct();
  }

  /** heartbeat and every name the client does not know change nothing. */
  lemma DispatchQuiet(s: ClientState, line: Text, now: int)
    requires ParseLine(line).Ok?
    requires var n := ParseLine(line).value.name;
      n == C.Heartbeat || n !in {C.AuthStatus, C.PingResponse, C.Message}
    ensures Dispatch(s, line, now) == Done(s, Pass)
  {
    NamesDistinct();
  }

  /** msg hands its first argument to OnMessageReceived, and fails without
      one. */
  lemma DispatchMessage(s: ClientState, line: Text, now: int)
    requires ParseLine(line).Ok? && ParseLine(line).value.name == C.Message
    ensures var args := ParseLine(line).value.args;
      Dispatch(s, line, now) ==
        if |args| == 0 then Done(s, Fail(IndexOutOfRange))
        else Done(s.(log := s.log + [MessageReceived(args[0])]), Pass)
  {
    NamesDistinct();
  }

  // ---------------------------------------------------------------------
  // The loop of ClientRoutine.

  /** Once _running is false (Disconnect, or authstatus error) the next turn
      leaves the loop and closes. */
  lemma StepNotRunning(cfg: Config, s: ClientState, elapsed: nat, now: int, input: Input, broken: bool)
    requires !s.closed && !s.running
    ensures Step(cfg, s, elapsed, now, input, broken) == Close(s)
  {
  }

  lemma DisconnectCloses(cfg: Config, s: ClientState, elapsed: nat, now: int, input: Input, broken: bool)
    requires !s.closed
    ensures Disconnect(s) == s.(running := false)
    ensures Step(cfg, Disconnect(s), elapsed, now, input, broken) == Close(s.(running := false))
  {
  }

  /** A pending request is answered with the password, once: the flag is
      cleared as soon as the write succeeds. */
  lemma StepSendsPassword(cfg: Config, s: ClientState, elapsed: nat, now: int, broken: bool)
    requires !s.closed && s.running && !s.authenticated && s.authenticationRequired && !broken
    ensures Step(cfg, s, elapsed, now, Idle, broken) ==
      s.(authenticationRequired := false, log := s.log + [Sent(WireLine(AuthCommand(cfg.password)))])
  {
  }

  /** Without a request, an unauthenticated idle turn changes nothing at all:
      no password, no ping, and the countdown stands still. */
  lemma StepUnauthenticatedIdle(cfg: Config, s: ClientState, elapsed: nat, now: int, broken: bool)
    requires !s.closed && s.running && !s.authenticated && !s.authenticationRequired
    ensures Step(cfg, s, elapsed, now, Idle, broken) == s
  {
  }

  /** An authenticated turn whose countdown runs out resets it to
      pingInterval, records the time and sends one ping. */
  lemma StepPings(cfg: Config, s: ClientState, elapsed: nat, now: int, broken: bool)
    requires !s.closed && s.running && s.authenticated && !broken
    requires s.timeUntilPing - elapsed <= 0
    ensures Step(cfg, s, elapsed, now, Idle, broken) ==
      s.(timeUntilPing := cfg.pingInterval, lastPing := now, log := s.log + [Sent(WireLine(PingCommand()))])
  {
  }

  /** Otherwise the countdown only runs down. */
  lemma StepCountsDown(cfg: Config, s: ClientState, elapsed: nat, now: int, broken: bool)
    requires !s.closed && s.running && s.authenticated
    requires s.timeUntilPing - elapsed > 0
    ensures Step(cfg, s, elapsed, now, Idle, broken) == s.(timeUntilPing := s.timeUntilPing - elapsed)
  {
  }

  /** A ping that cannot be written ends the routine. */
  lemma StepPingFails(cfg: Config, s: ClientState, elapsed: nat, now: int, input: Input)
    requires !s.closed && s.running && s.authenticated && s.timeUntilPing - elapsed <= 0
    ensures var t := Step(cfg, s, elapsed, now, input, true);
      t.closed && t.log == s.log + [ServerClosed]
  {
  }

  lemma DispatchKeepsCountdown(s: ClientState, line: Text, now: int)
    ensures Dispatch(s, line, now).state.timeUntilPing == s.timeUntilPing
  {
    match ParseLine(line)
    case Err(_) =>
    case Ok(cmd) =>
      if cmd.name == C.AuthStatus {
        assert Dispatch(s, line, now) == AuthStatus(s, cmd.args);
      }
  }

  /** Dispatching never touches the ping countdown. */
  lemma {:induction false} ProcessLinesKeepsCountdown(cfg: Config, s: ClientState, lines: seq<Text>, now: int)
    ensures ProcessLines(cfg, s, lines, now).state.timeUntilPing == s.timeUntilPing
    decreases |lines|
  {
    if |lines| > 0 {
      var d := Dispatch(s, lines[0], now);
      DispatchKeepsCountdown(s, lines[0], now);
      if d.outcome.Pass? {
        ProcessLinesKeepsCountdown(cfg, d.state, lines[1..], now);
      } else {
        ProcessLinesKeepsCountdown(cfg, d.state.(log := d.state.log + [HandlerFailed(d.outcome.fault)]), lines[1..], now);
      }
    }
  }

  /** Before authentication the countdown stands still, so it is still 0
      from Initial when the client is authenticated, and the first
      authenticated turn pings. */
  lemma StepKeepsCountdownUnauthenticated(cfg: Config, s: ClientState, elapsed: nat, now: int, input: Input, broken: bool)
    requires !s.closed && !s.authenticated
    ensures Step(cfg, s, elapsed, now, input, broken).timeUntilPing == s.timeUntilPing
  {
    if s.running {
      var d2 := AuthPart(cfg, s, broken);
      if d2.outcome.Pass? && input.Data? {
        var f := Feed(d2.state.buffer, input.chunk);
        ProcessLinesKeepsCountdown(cfg, d2.state.(buffer := f.buffer), f.lines, now);
      }
    }
  }

  /** Authentication, once gained, is never lost. */
  lemma StepKeepsAuthenticated(cfg: Config, s: ClientState, elapsed: nat, now: int, input: Input, broken: bool)
    requires !s.closed && s.authenticated
    ensures Step(cfg, s, elapsed, now, input, broken).authenticated
  {
    if s.running {
      var d1 := PingPart(cfg, s, elapsed, now, broken);
      PingPartFrame(cfg, s, elapsed, now, broken);
      var d2 := AuthPart(cfg, d1.state, broken);
      AuthPartFrame(cfg, d1.state, broken);
      if d2.outcome.Pass? && input.Data? {
        var f := Feed(d2.state.buffer, input.chunk);
        ProcessLinesFrame(cfg, d2.state.(buffer := f.buffer), f.lines, now);
      }
    }
  }

  /** With ignoreMessageHandlerExceptions the routine survives every batch. */
  lemma {:induction false} ProcessLinesIgnoring(cfg: Config, s: ClientState, lines: seq<Text>, now: int)
    requires cfg.ignoreMessageHandlerExceptions
    ensures ProcessLines(cfg, s, lines, now).alive
    decreases |lines|
  {
    if |lines| > 0 {
      var d := Dispatch(s, lines[0], now);
      if d.outcome.Pass? {
        ProcessLinesIgnoring(cfg, d.state, lines[1..], now);
      } else {
        ProcessLinesIgnoring(cfg, d.state.(log := d.state.log + [HandlerFailed(d.outcome.fault)]), lines[1..], now);
      }
    }
  }

  /** Without it, the first failing line ends the batch and the routine. */
  lemma ProcessLinesStops(cfg: Config, s: ClientState, line: Text, rest: seq<Text>, now: int)
    requires !cfg.ignoreMessageHandlerExceptions && Dispatch(s, line, now).outcome.Fail?
    ensures var d := Dispatch(s, line, now);
      ProcessLines(cfg, s, [line] + rest, now) == Processed(d.state.(log := d.state.log + [HandlerFailed(d.outcome.fault)]), false)
  {
    assert ([line] + rest)[0] == line;
  }

  // ---------------------------------------------------------------------
  // Messages to the server.

  /** Before authentication nothing is written: the refusal is logged. */
  lemma SendMessageUnauthenticated(s: ClientState, message: Text, broken: bool)
    requires !s.authenticated
    ensures SendMessage(s, message, broken) == s.(log := s.log + [SendFailed(ClientNotAuthenticated)])
  {
  }

  /** Afterwards the message is written, or the failed write is logged. */
  lemma SendMessageAuthenticated(s: ClientState, message: Text, broken: bool)
    requires s.authenticated
    ensures SendMessage(s, message, broken) ==
      s.(log := s.log + [if broken || s.closed then SendFailed(WriteFailed) else Sent(WireLine(MessageCommand(message)))])
  {
  }
}
