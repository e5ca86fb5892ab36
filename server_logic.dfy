/** Runtime/Server.cs as functions on values: the session table of the server
    and the state machine of one connection. Each iteration of the loop of a
    ClientRoutine coroutine is one Step; accepting a pending connection
    (ServerRoutine, and ClientRoutine up to its loop) is Accept. Writes and
    callbacks are recorded in a log. The class in module Server is proved to
    follow these functions. */
module ServerLogic {
  import opened Outcomes
  import opened Strings
  import C = MultiplayerConstants
  import opened MultiplayerCommand
  import opened Framer

  /** The serialized fields of the component, and _password from Start. */
  datatype Config = Config(
    password: Text,
    heartbeatInterval: int,
    ignoreMessageHandlerExceptions: bool,
    kickAfterWrongPassword: bool)

  /** Server.ClientInstance, without the socket objects. */
  datatype ClientInstance = ClientInstance(authenticated: bool, shouldBeKicked: bool)

  /** The locals of a running ClientRoutine: the heartbeat countdown and the
      message builder. */
  datatype Routine = Routine(timeUntilHeartbeat: int, buffer: Text)

  /** What the server did that can be observed from outside: a line written
      to a stream, a callback called, an exception logged. */
  datatype Event =
    | Sent(id: nat, line: Text)
    | ClientAuthenticated(id: nat)             // OnClientAuthenticated
    | MessageReceived(id: nat, message: Text)  // OnMessageReceived
    | HandlerFailed(id: nat, fault: Fault)     // "Command handler threw"
    | SendFailed(id: nat, fault: Fault)        // "Error sending message to"
    | ClientClosed(id: nat)                    // OnClientClosed

  datatype ServerState = ServerState(
    clients: map<nat, ClientInstance>,
    routines: map<nat, Routine>,
    nextClientId: nat,
    log: seq<Event>)

  /** The state after a statement, and whether the statement threw. */
  datatype Done = Done(state: ServerState, outcome: Outcome)

  function Initial(): ServerState {
    ServerState(map[], map[], 0, [])
  }

  // The commands the server sends.
  function AuthRequired(): Command { Command(C.AuthStatus, [C.AuthStatusRequired]) }
  function AuthSuccess(id: nat): Command { Command(C.AuthStatus, [C.AuthStatusSuccess, ToDecimal(id)]) }
  function AuthError(): Command { Command(C.AuthStatus, [C.AuthStatusError, WrongPasswordReason]) }
  const WrongPasswordReason: Text := Lit("wrong password")
  function Pong(): Command { NameOnly(C.PingResponse) }
  function HeartbeatCommand(): Command { NameOnly(C.Heartbeat) }
  function MessageCommand(message: Text): Command { Command(C.Message, [message]) }

  /** SendCommandToClient: _clients[id] throws for an unknown id, and
      Stream.Write throws for a connection in `down`. */
  function SendCommand(s: ServerState, id: nat, c: Command, down: set<nat>): Done {
    if id !in s.clients then Done(s, Fail(KeyNotFound))
    else if id in down then Done(s, Fail(WriteFailed))
    else Done(s.(log := s.log + [Sent(id, WireLine(c))]), Pass)
  }

  /** Authenticate: the flag is set before the write, and the callback runs
      only after the write succeeded. */
  function Authenticate(s: ServerState, id: nat, down: set<nat>): Done
    requires id in s.clients
  {
    var s1 := s.(clients := s.clients[id := s.clients[id].(authenticated := true)]);
    var d := SendCommand(s1, id, AuthSuccess(id), down);
    if d.outcome.Fail? then d
    else Done(d.state.(log := d.state.log + [ClientAuthenticated(id)]), Pass)
  }

  /** Kick: only marks the connection; _clients[id] throws for an unknown id. */
  function Kick(s: ServerState, id: nat): Done {
    if id !in s.clients then Done(s, Fail(KeyNotFound))
    else Done(s.(clients := s.clients[id := s.clients[id].(shouldBeKicked := true)]), Pass)
  }

  /** The body of the per-command try block of ClientRoutine. */
  function Dispatch(cfg: Config, s: ServerState, id: nat, line: Text, down: set<nat>): Done
    requires id in s.clients
  {
    match ParseLine(line)
    case Err(f) => Done(s, Fail(f))
    case Ok(cmd) =>
      if s.clients[id].authenticated then HandleAuthenticated(s, id, cmd, down)
      else HandleUnauthenticated(cfg, s, id, cmd, down)
  }

  /** The commands an authenticated connection may send. */
  function HandleAuthenticated(s: ServerState, id: nat, cmd: Command, down: set<nat>): Done
    requires id in s.clients
  {
    if cmd.name == C.Ping then SendCommand(s, id, Pong(), down)
    else if cmd.name == C.Message then
      if |cmd.args| == 0 then Done(s, Fail(IndexOutOfRange))
      else Done(s.(log := s.log + [MessageReceived(id, cmd.args[0])]), Pass)
    else Done(s, Fail(InvalidCommand))
  }

  /** Before authentication only a password is accepted. */
  function HandleUnauthenticated(cfg: Config, s: ServerState, id: nat, cmd: Command, down: set<nat>): Done
    requires id in s.clients
  {
    if cmd.name != C.Auth then Done(s, Fail(ClientNotAuthenticated))
    else if |cmd.args| == 0 then Done(s, Fail(IndexOutOfRange))
    else if cmd.args[0] == cfg.password then Authenticate(s, id, down)
    else WrongPassword(cfg, s, id, down)
  }

  /** A wrong password is answered, and then kicked when configured to. */
  function WrongPassword(cfg: Config, s: ServerState, id: nat, down: set<nat>): Done
    requires id in s.clients
  {
    var d := SendCommand(s, id, AuthError(), down);
    if d.outcome.Fail? then d
    else if cfg.kickAfterWrongPassword then Kick(d.state, id)
    else d
  }

  /** The state after a batch of lines, and whether the routine survives it. */
  datatype Processed = Processed(state: ServerState, alive: bool)

  /** The foreach over the released lines: a failing line is logged; with
      ignoreMessageHandlerExceptions the loop goes on, otherwise the
      exception is rethrown and ends the routine. */
  function ProcessLines(cfg: Config, s: ServerState, id: nat, lines: seq<Text>, down: set<nat>): (r: Processed)
    requires id in s.clients
    ensures r.state.clients.Keys == s.clients.Keys && r.state.routines == s.routines
    ensures r.state.nextClientId == s.nextClientId
    decreases |lines|
  {
    if |lines| == 0 then Processed(s, true)
    else
      var d := Dispatch(cfg, s, id, lines[0], down);
      DispatchFrame(cfg, s, id, lines[0], down);
      if d.outcome.Pass? then ProcessLines(cfg, d.state, id, lines[1..], down)
      else
        var s1 := d.state.(log := d.state.log + [HandlerFailed(id, d.outcome.fault)]);
        if cfg.ignoreMessageHandlerExceptions then ProcessLines(cfg, s1, id, lines[1..], down)
        else Processed(s1, false)
  }

  /** The finally block of ClientRoutine. */
  function Close(s: ServerState, id: nat): ServerState {
    s.(clients := s.clients - {id}, routines := s.routines - {id}, log := s.log + [ClientClosed(id)])
  }

  /** One iteration of the while (true) loop of ClientRoutine: the kick
      check, the heartbeat countdown, then at most one read and the lines it
      releases. Any exception outside the per-command handler ends the
      routine. */
  function Step(cfg: Config, s: ServerState, id: nat, elapsed: nat, input: Input, down: set<nat>): ServerState
    requires id in s.clients && id in s.routines
  {
    if s.clients[id].shouldBeKicked then Close(s, id)
    else
      var d := HeartbeatPart(cfg, s, id, elapsed, down);
      if d.outcome.Fail? then Close(d.state, id)
      else ReadPart(cfg, d.state, id, input, down)
  }

  /** The heartbeat countdown: reset to heartbeatInterval, with a heartbeat
      written, once it reaches zero. Only the countdown and the log change. */
  function HeartbeatPart(cfg: Config, s: ServerState, id: nat, elapsed: nat, down: set<nat>): (d: Done)
    requires id in s.clients && id in s.routines
    ensures d.state.clients == s.clients && d.state.routines.Keys == s.routines.Keys
    ensures d.state.routines[id].buffer == s.routines[id].buffer
  {
    var r := s.routines[id];
    var t := r.timeUntilHeartbeat - elapsed;
    var beat := t <= 0;
    var s1 := s.(routines := s.routines[id := r.(timeUntilHeartbeat := if beat then cfg.heartbeatInterval else t)]);
    if beat then SendCommand(s1, id, HeartbeatCommand(), down) else Done(s1, Pass)
  }

  /** At most one read, and the lines it releases. */
  function ReadPart(cfg: Config, s: ServerState, id: nat, input: Input, down: set<nat>): ServerState
    requires id in s.clients && id in s.routines
  {
    match input
    case Idle => s
    case ReadFailed => Close(s, id)
    case Data(chunk) =>
      var f := Feed(s.routines[id].buffer, chunk);
      var s2 := s.(routines := s.routines[id := s.routines[id].(buffer := f.buffer)]);
      var p := ProcessLines(cfg, s2, id, f.lines, down);
      if p.alive then p.state else Close(p.state, id)
  }

  /** A pending connection accepted: ClientRoutine(_nextClientId++, ...) up
      to its loop. With no password the connection is authenticated at once;
      otherwise it is told that a password is required. */
  function Accept(cfg: Config, s: ServerState, down: set<nat>): ServerState {
    Admit(cfg, Register(s, Routine(cfg.heartbeatInterval, [])), s.nextClientId, down)
  }

  /** _clients.Add(_nextClientId++, ...) and the routine's fresh locals. */
  function Register(s: ServerState, r: Routine): ServerState {
    var id := s.nextClientId;
    s.(nextClientId := id + 1,
       clients := s.clients[id := ClientInstance(false, false)],
       routines := s.routines[id := r])
  }

  /** The registered connection's first write; when it throws, the routine
      ends before its loop. */
  function Admit(cfg: Config, s: ServerState, id: nat, down: set<nat>): ServerState
    requires id in s.clients
  {
    var d := Welcome(cfg, s, id, down);
    if d.outcome.Fail? then Close(d.state, id) else d.state
  }

  /** The first write to a new connection: the id when no password is set,
      the request for one otherwise. */
  function Welcome(cfg: Config, s: ServerState, id: nat, down: set<nat>): Done
    requires id in s.clients
  {
    if cfg.password == [] then Authenticate(s, id, down) else SendCommand(s, id, AuthRequired(), down)
  }

  /** SendMessageToClient: a failed send is logged, not propagated. */
  function SendMessage(s: ServerState, id: nat, message: Text, down: set<nat>): ServerState {
    var d := SendCommand(s, id, MessageCommand(message), down);
    if d.outcome.Fail? then d.state.(log := d.state.log + [SendFailed(id, d.outcome.fault)]) else d.state
  }

  /** SendMessageToEveryone, for the order in which the dictionary yields
      its keys. */
  function Broadcast(s: ServerState, order: seq<nat>, message: Text, down: set<nat>): ServerState
    decreases |order|
  {
    if |order| == 0 then s
    else SendMessage(Broadcast(s, order[..|order| - 1], message, down), order[|order| - 1], message, down)
  }

  // ---------------------------------------------------------------------
  // Framing of the state changes.

  /** What every statement inside a routine does to the state: it may
      change connection id's own record (its authentication flag only from
      false to true) and append events about id, never a ClientClosed or
      SendFailed; every other part of the state stays. */
  predicate Local(s: ServerState, t: ServerState, id: nat) {
    && id in s.clients
    && t.clients.Keys == s.clients.Keys && t.routines == s.routines
    && t.nextClientId == s.nextClientId
    && (forall k :: k in s.clients && k != id ==> t.clients[k] == s.clients[k])
    && (s.clients[id].authenticated ==> t.clients[id].authenticated)
    && |s.log| <= |t.log| && t.log[..|s.log|] == s.log
    && (forall i :: |s.log| <= i < |t.log| ==> LocalEvent(t, id, t.log[i]))
  }

  predicate LocalEvent(t: ServerState, id: nat, e: Event)
    requires id in t.clients
  {
    && e.id == id && !e.ClientClosed? && !e.SendFailed?
    && ((e.ClientAuthenticated? || e.MessageReceived?) ==> t.clients[id].authenticated)
    && (e.Sent? ==> IsAscii(e.line))
  }

  lemma LocalRefl(s: ServerState, id: nat)
    requires id in s.clients
    ensures Local(s, s, id)
  {
    assert s.log[..|s.log|] == s.log;
  }

  lemma LocalTrans(s: ServerState, t: ServerState, u: ServerState, id: nat)
    requires Local(s, t, id) && Local(t, u, id)
    ensures Local(s, u, id)
  {
    assert u.log[..|t.log|][..|s.log|] == u.log[..|s.log|];
    forall i | |s.log| <= i < |u.log| ensures LocalEvent(u, id, u.log[i]) {
      if i < |t.log| {
        assert u.log[i] == t.log[i];
        assert LocalEvent(t, id, t.log[i]);
      }
    }
  }

  /** Appending one event about id keeps a step local. */
  lemma LocalAppend(s: ServerState, e: Event, id: nat)
    requires id in s.clients && LocalEvent(s, id, e)
    ensures Local(s, s.(log := s.log + [e]), id)
  {
    assert (s.log + [e])[..|s.log|] == s.log;
  }

  // The lines the server sends are ASCII.

  lemma NamesAscii()
    ensures IsAscii(C.Heartbeat) && IsAscii(C.PingResponse) && IsAscii(C.AuthStatus) && IsAscii(C.Message)
  {
    C.CommandNamesAreTokens();
    assert C.CommandNames()[0] == C.Heartbeat && C.CommandNames()[1] == C.PingResponse;
    assert C.CommandNames()[2] == C.AuthStatus && C.CommandNames()[5] == C.Message;
  }

  lemma AuthRequiredAscii() ensures IsAscii(WireLine(AuthRequired())) { NamesAscii(); WireLineAscii(AuthRequired()); }
  lemma AuthSuccessAscii(id: nat) ensures IsAscii(WireLine(AuthSuccess(id))) { NamesAscii(); WireLineAscii(AuthSuccess(id)); }
  lemma AuthErrorAscii() ensures IsAscii(WireLine(AuthError())) { NamesAscii(); WireLineAscii(AuthError()); }
  lemma PongAscii() ensures IsAscii(WireLine(Pong())) { NamesAscii(); WireLineAscii(Pong()); }
  lemma HeartbeatAscii() ensures IsAscii(WireLine(HeartbeatCommand())) { NamesAscii(); WireLineAscii(HeartbeatCommand()); }
  lemma MessageAscii(message: Text) ensures IsAscii(WireLine(MessageCommand(message))) { NamesAscii(); WireLineAscii(MessageCommand(message)); }

  lemma SendCommandFrame(s: ServerState, id: nat, c: Command, down: set<nat>)
    requires id in s.clients && IsAscii(WireLine(c))
    ensures Local(s, SendCommand(s, id, c, down).state, id)
  {
    if id in down { LocalRefl(s, id); }
    else { LocalAppend(s, Sent(id, WireLine(c)), id); }
  }

  /** Changing id's own record keeps a step local when the flag does not
      drop. */
  lemma UpdateFrame(s: ServerState, id: nat, ci: ClientInstance)
    requires id in s.clients && (s.clients[id].authenticated ==> ci.authenticated)
    ensures Local(s, s.(clients := s.clients[id := ci]), id)
  {
    assert s.log[..|s.log|] == s.log;
  }

  lemma AuthenticateFrame(s: ServerState, id: nat, down: set<nat>)
    requires id in s.clients
    ensures Local(s, Authenticate(s, id, down).state, id)
    ensures Authenticate(s, id, down).state.clients[id].authenticated
  {
    var s1 := s.(clients := s.clients[id := s.clients[id].(authenticated := true)]);
    UpdateFrame(s, id, s.clients[id].(authenticated := true));
    AuthSuccessAscii(id);
    var d := SendCommand(s1, id, AuthSuccess(id), down);
    SendCommandFrame(s1, id, AuthSuccess(id), down);
    LocalTrans(s, s1, d.state, id);
    if d.outcome.Pass? {
      LocalAppend(d.state, ClientAuthenticated(id), id);
      LocalTrans(s, d.state, Authenticate(s, id, down).state, id);
    }
  }

  lemma KickFrame(s: ServerState, id: nat)
    requires id in s.clients
    ensures Local(s, Kick(s, id).state, id)
  {
    assert Kick(s, id).state.log[..|s.log|] == s.log;
  }

  lemma HandleAuthenticatedFrame(s: ServerState, id: nat, cmd: Command, down: set<nat>)
    requires id in s.clients && s.clients[id].authenticated
    ensures Local(s, HandleAuthenticated(s, id, cmd, down).state, id)
  {
    if cmd.name == C.Ping {
      PongAscii();
      SendCommandFrame(s, id, Pong(), down);
    } else if cmd.name == C.Message && |cmd.args| > 0 {
      LocalAppend(s, MessageReceived(id, cmd.args[0]), id);
    } else {
      LocalRefl(s, id);
    }
  }

  lemma HandleUnauthenticatedFrame(cfg: Config, s: ServerState, id: nat, cmd: Command, down: set<nat>)
    requires id in s.clients
    ensures Local(s, HandleUnauthenticated(cfg, s, id, cmd, down).state, id)
  {
    if cmd.name != C.Auth || |cmd.args| == 0 {
      LocalRefl(s, id);
    } else if cmd.args[0] == cfg.password {
      AuthenticateFrame(s, id, down);
    } else {
      WrongPasswordFrame(cfg, s, id, down);
    }
  }

  lemma WrongPasswordFrame(cfg: Config, s: ServerState, id: nat, down: set<nat>)
    requires id in s.clients
    ensures Local(s, WrongPassword(cfg, s, id, down).state, id)
  {
    AuthErrorAscii();
    SendCommandFrame(s, id, AuthError(), down);
    var d := SendCommand(s, id, AuthError(), down);
    if d.outcome.Pass? && cfg.kickAfterWrongPassword {
      assert WrongPassword(cfg, s, id, down) == Kick(d.state, id);
      KickFrame(d.state, id);
      LocalTrans(s, d.state, Kick(d.state, id).state, id);
    } else {
      assert WrongPassword(cfg, s, id, down) == d;
    }
  }

  lemma DispatchFrame(cfg: Config, s: ServerState, id: nat, line: Text, down: set<nat>)
    requires id in s.clients
    ensures Local(s, Dispatch(cfg, s, id, line, down).state, id)
  {
    match ParseLine(line)
    case Err(_) => LocalRefl(s, id);
    case Ok(cmd) =>
      if s.clients[id].authenticated {
        HandleAuthenticatedFrame(s, id, cmd, down);
      } else {
        HandleUnauthenticatedFrame(cfg, s, id, cmd, down);
      }
  }

  lemma {:induction false} ProcessLinesFrame(cfg: Config, s: ServerState, id: nat, lines: seq<Text>, down: set<nat>)
    requires id in s.clients
    ensures Local(s, ProcessLines(cfg, s, id, lines, down).state, id)
    decreases |lines|
  {
    if |lines| == 0 {
      LocalRefl(s, id);
    } else {
      var d := Dispatch(cfg, s, id, lines[0], down);
      DispatchFrame(cfg, s, id, lines[0], down);
      if d.outcome.Pass? {
        ProcessLinesFrame(cfg, d.state, id, lines[1..], down);
        LocalTrans(s, d.state, ProcessLines(cfg, d.state, id, lines[1..], down).state, id);
      } else {
        var s1 := d.state.(log := d.state.log + [HandlerFailed(id, d.outcome.fault)]);
        LocalAppend(d.state, HandlerFailed(id, d.outcome.fault), id);
        LocalTrans(s, d.state, s1, id);
        if cfg.ignoreMessageHandlerExceptions {
          ProcessLinesFrame(cfg, s1, id, lines[1..], down);
          LocalTrans(s, s1, ProcessLines(cfg, s1, id, lines[1..], down).state, id);
        }
      }
    }
  }

  // ---------------------------------------------------------------------
  // The invariant of the session table.

  /** Every live connection has a routine, and ids are handed out in order. */
  predicate TableInv(s: ServerState) {
    && s.clients.Keys == s.routines.Keys
    && (forall k :: k in s.clients ==> k < s.nextClientId)
  }

  /** Every event except a failed send, which may name any id, is about an
      id already handed out. */
  predicate IdsInv(s: ServerState) {
    forall i :: 0 <= i < |s.log| && !s.log[i].SendFailed? ==> s.log[i].id < s.nextClientId
  }

  /** A closed connection is gone for good: its id is not live, and the only
      later events that name it are failed sends. */
  predicate ClosedInv(s: ServerState) {
    && (forall i :: 0 <= i < |s.log| && s.log[i].ClientClosed? ==> s.log[i].id !in s.clients)
    && (forall i, j :: 0 <= i < j < |s.log| && s.log[i].ClientClosed? && s.log[j].id == s.log[i].id ==> s.log[j].SendFailed?)
  }

  /** OnClientAuthenticated and OnMessageReceived are only ever called for
      an authenticated connection, and the flag never drops while the
      connection lives; everything written is ASCII. */
  predicate AuthInv(s: ServerState) {
    && (forall i :: 0 <= i < |s.log| && (s.log[i].ClientAuthenticated? || s.log[i].MessageReceived?) && s.log[i].id in s.clients
          ==> s.clients[s.log[i].id].authenticated)
    && (forall i :: 0 <= i < |s.log| && s.log[i].Sent? ==> IsAscii(s.log[i].line))
  }

  predicate Inv(s: ServerState) {
    TableInv(s) && IdsInv(s) && ClosedInv(s) && AuthInv(s)
  }

  lemma InitialInv()
    ensures Inv(Initial())
  {
  }

  /** A local step keeps the invariant. */
  lemma LocalInv(s: ServerState, t: ServerState, id: nat)
    requires Inv(s) && Local(s, t, id)
    ensures Inv(t)
  {
    forall i | 0 <= i < |t.log| && !t.log[i].SendFailed? ensures t.log[i].id < t.nextClientId {
      if i < |s.log| { assert t.log[i] == s.log[i]; } else { assert LocalEvent(t, id, t.log[i]); }
    }
    forall i | 0 <= i < |t.log| && t.log[i].ClientClosed? ensures t.log[i].id !in t.clients {
      if i < |s.log| { assert t.log[i] == s.log[i]; } else { assert false; }
    }
    forall i, j | 0 <= i < j < |t.log| && t.log[i].ClientClosed? && t.log[j].id == t.log[i].id
      ensures t.log[j].SendFailed?
    {
      if i < |s.log| {
        assert t.log[i] == s.log[i];
        if j < |s.log| { assert t.log[j] == s.log[j]; } else { assert false; }
      } else {
        assert false;
      }
    }
    forall i | 0 <= i < |t.log| && (t.log[i].ClientAuthenticated? || t.log[i].MessageReceived?) && t.log[i].id in t.clients
      ensures t.clients[t.log[i].id].authenticated
    {
      if i < |s.log| { assert t.log[i] == s.log[i]; } else { assert LocalEvent(t, id, t.log[i]); }
    }
    forall i | 0 <= i < |t.log| && t.log[i].Sent? ensures IsAscii(t.log[i].line) {
      if i < |s.log| { assert t.log[i] == s.log[i]; } else { assert LocalEvent(t, id, t.log[i]); }
    }
  }

  /** Closing a live connection keeps the invariant. */
  lemma CloseInv(s: ServerState, id: nat)
    requires Inv(s) && id in s.clients
    ensures Inv(Close(s, id))
  {
    var t := Close(s, id);
    forall i, j | 0 <= i < j < |t.log| && t.log[i].ClientClosed? && t.log[j].id == t.log[i].id
      ensures t.log[j].SendFailed?
    {
      assert t.log[i] == s.log[i];
      if j < |s.log| { assert t.log[j] == s.log[j]; }
    }
  }

  /** A new routine state for a live connection keeps the invariant. */
  lemma RoutineInv(s: ServerState, id: nat, r: Routine)
    requires Inv(s) && id in s.routines
    ensures Inv(s.(routines := s.routines[id := r]))
  {
  }

  /** A failed send, logged, keeps the invariant whatever id it names. */
  lemma SendFailedInv(s: ServerState, id: nat, f: Fault)
    requires Inv(s)
    ensures Inv(s.(log := s.log + [SendFailed(id, f)]))
  {
    var t := s.(log := s.log + [SendFailed(id, f)]);
    forall i, j | 0 <= i < j < |t.log| && t.log[i].ClientClosed? && t.log[j].id == t.log[i].id
      ensures t.log[j].SendFailed?
    {
      assert t.log[i] == s.log[i];
      if j < |s.log| { assert t.log[j] == s.log[j]; }
    }
  }

  lemma StepInv(cfg: Config, s: ServerState, id: nat, elapsed: nat, input: Input, down: set<nat>)
    requires Inv(s) && id in s.clients && id in s.routines
    ensures Inv(Step(cfg, s, id, elapsed, input, down))
  {
    if s.clients[id].shouldBeKicked {
      CloseInv(s, id);
    } else {
      HeartbeatPartInv(cfg, s, id, elapsed, down);
      var d := HeartbeatPart(cfg, s, id, elapsed, down);
      if d.outcome.Pass? {
        ReadPartInv(cfg, d.state, id, input, down);
      }
    }
  }

  lemma HeartbeatPartInv(cfg: Config, s: ServerState, id: nat, elapsed: nat, down: set<nat>)
    requires Inv(s) && id in s.clients && id in s.routines
    ensures var d := HeartbeatPart(cfg, s, id, elapsed, down);
      Inv(d.state) && Inv(Close(d.state, id))
  {
    var r := s.routines[id];
    var t := r.timeUntilHeartbeat - elapsed;
    var beat := t <= 0;
    var s1 := s.(routines := s.routines[id := r.(timeUntilHeartbeat := if beat then cfg.heartbeatInterval else t)]);
    RoutineInv(s, id, r.(timeUntilHeartbeat := if beat then cfg.heartbeatInterval else t));
    var d := HeartbeatPart(cfg, s, id, elapsed, down);
    if beat {
      HeartbeatAscii();
      SendCommandFrame(s1, id, HeartbeatCommand(), down);
      LocalInv(s1, d.state, id);
    }
    CloseInv(d.state, id);
  }

  lemma ReadPartInv(cfg: Config, s: ServerState, id: nat, input: Input, down: set<nat>)
    requires Inv(s) && id in s.clients && id in s.routines
    ensures Inv(ReadPart(cfg, s, id, input, down))
  {
    match input
    case Idle =>
    case ReadFailed =>
      CloseInv(s, id);
    case Data(chunk) =>
      var f := Feed(s.routines[id].buffer, chunk);
      var s2 := s.(routines := s.routines[id := s.routines[id].(buffer := f.buffer)]);
      RoutineInv(s, id, s.routines[id].(buffer := f.buffer));
      var p := ProcessLines(cfg, s2, id, f.lines, down);
      ProcessLinesFrame(cfg, s2, id, f.lines, down);
      LocalInv(s2, p.state, id);
      if !p.alive {
        CloseInv(p.state, id);
      }
  }

  /** Registering a new connection under the next id keeps the invariant. */
  lemma RegisterInv(s: ServerState, r: Routine)
    requires Inv(s)
    ensures Inv(Register(s, r)) && s.nextClientId in Register(s, r).clients
  {
    var t := Register(s, r);
    forall i | 0 <= i < |t.log| && t.log[i].ClientClosed? ensures t.log[i].id !in t.clients {
      assert t.log[i] == s.log[i];
    }
    forall i | 0 <= i < |t.log| && (t.log[i].ClientAuthenticated? || t.log[i].MessageReceived?) && t.log[i].id in t.clients
      ensures t.clients[t.log[i].id].authenticated
    {
      assert t.log[i] == s.log[i];
    }
  }

  lemma AcceptInv(cfg: Config, s: ServerState, down: set<nat>)
    requires Inv(s)
    ensures Inv(Accept(cfg, s, down))
  {
    var r := Routine(cfg.heartbeatInterval, []);
    RegisterInv(s, r);
    AdmitInv(cfg, Register(s, r), s.nextClientId, down);
  }

  lemma AdmitInv(cfg: Config, s: ServerState, id: nat, down: set<nat>)
    requires Inv(s) && id in s.clients
    ensures Inv(Admit(cfg, s, id, down))
  {
    WelcomeInv(cfg, s, id, down);
  }

  /** Whether or not the first write fails, the invariant holds after it. */
  lemma WelcomeInv(cfg: Config, s: ServerState, id: nat, down: set<nat>)
    requires Inv(s) && id in s.clients
    ensures var d := Welcome(cfg, s, id, down);
      Inv(d.state) && id in d.state.clients && Inv(Close(d.state, id))
  {
    var d := Welcome(cfg, s, id, down);
    if cfg.password == [] {
      AuthenticateFrame(s, id, down);
    } else {
      AuthRequiredAscii();
      SendCommandFrame(s, id, AuthRequired(), down);
    }
    LocalInv(s, d.state, id);
    CloseInv(d.state, id);
  }

  lemma KickInv(s: ServerState, id: nat)
    requires Inv(s)
    ensures Inv(Kick(s, id).state)
  {
    if id in s.clients {
      KickFrame(s, id);
      LocalInv(s, Kick(s, id).state, id);
    }
  }

  lemma SendMessageInv(s: ServerState, id: nat, message: Text, down: set<nat>)
    requires Inv(s)
    ensures Inv(SendMessage(s, id, message, down))
  {
    var d := SendCommand(s, id, MessageCommand(message), down);
    if id in s.clients {
      MessageAscii(message);
      SendCommandFrame(s, id, MessageCommand(message), down);
      LocalInv(s, d.state, id);
    }
    if d.outcome.Fail? {
      SendFailedInv(d.state, id, d.outcome.fault);
    }
  }

  lemma {:induction false} BroadcastInv(s: ServerState, order: seq<nat>, message: Text, down: set<nat>)
    requires Inv(s)
    ensures Inv(Broadcast(s, order, message, down))
    decreases |order|
  {
    if |order| > 0 {
      BroadcastInv(s, order[..|order| - 1], message, down);
      SendMessageInv(Broadcast(s, order[..|order| - 1], message, down), order[|order| - 1], message, down);
    }
  }

  // ---------------------------------------------------------------------
  // Connection ids.

  /** The id given to a new connection has never been used: it is not live
      and no event so far names it, except possibly a failed send to an id
      nobody had. Later connections get strictly larger ids. */
  lemma AcceptFresh(cfg: Config, s: ServerState, down: set<nat>)
    requires Inv(s)
    ensures s.nextClientId !in s.clients
    ensures forall i :: 0 <= i < |s.log| && s.log[i].id == s.nextClientId ==> s.log[i].SendFailed?
    ensures Accept(cfg, s, down).nextClientId == s.nextClientId + 1
  {
  }

  /** A connection is closed at most once: after ClientClosed no event names
      its id again, except a failed send from SendMessageToClient. */
  lemma ClosedOnce(s: ServerState, i: nat, j: nat)
    requires Inv(s) && i < j < |s.log| && s.log[i].ClientClosed? && s.log[j].ClientClosed?
    ensures s.log[i].id != s.log[j].id
  {
  }

  // ---------------------------------------------------------------------
  // Accepting a connection.

  /** With no password the connection is authenticated at once: it is sent
      its id, and then OnClientAuthenticated runs. */
  lemma AcceptWithoutPassword(cfg: Config, s: ServerState, down: set<nat>)
    requires cfg.password == [] && s.nextClientId !in down
    ensures var id := s.nextClientId; var t := Accept(cfg, s, down);
      && t.clients == s.clients[id := ClientInstance(true, false)]
      && t.routines == s.routines[id := Routine(cfg.heartbeatInterval, [])]
      && t.log == s.log + [Sent(id, WireLine(AuthSuccess(id))), ClientAuthenticated(id)]
  {
  }

  /** With a password the connection stays unauthenticated and is told that
      a password is required. */
  lemma AcceptWithPassword(cfg: Config, s: ServerState, down: set<nat>)
    requires cfg.password != [] && s.nextClientId !in down
    ensures var id := s.nextClientId; var t := Accept(cfg, s, down);
      && t.clients == s.clients[id := ClientInstance(false, false)]
      && t.routines == s.routines[id := Routine(cfg.heartbeatInterval, [])]
      && t.log == s.log + [Sent(id, WireLine(AuthRequired()))]
  {
  }

  /** When the first write fails the routine ends before its loop: the
      connection is removed again and closed, and no callback but
      OnClientClosed runs. */
  lemma AcceptWriteFails(cfg: Config, s: ServerState, down: set<nat>)
    requires s.nextClientId !in s.clients && s.nextClientId in down
    ensures var id := s.nextClientId; var t := Accept(cfg, s, down);
      && t.clients == s.clients && t.routines == s.routines - {id}
      && t.log == s.log + [ClientClosed(id)]
  {
    var id := s.nextClientId;
    assert s.clients[id := ClientInstance(false, false)] - {id} == s.clients;
  }

  // ---------------------------------------------------------------------
  // Dispatch of one line.

  /** A line that does not parse raises the decode error and changes nothing. */
  lemma DispatchMalformed(cfg: Config, s: ServerState, id: nat, line: Text, down: set<nat>)
    requires id in s.clients && ParseLine(line).Err?
    ensures Dispatch(cfg, s, id, line, down) == Done(s, Fail(FormatError))
  {
  }

  /** Before authentication every command but auth raises
      ClientNotAuthenticatedException, and nothing happens: in particular
      OnMessageReceived is not called. */
  lemma DispatchUnauthenticated(cfg: Config, s: ServerState, id: nat, line: Text, down: set<nat>)
    requires id in s.clients && !s.clients[id].authenticated
    requires ParseLine(line).Ok? && ParseLine(line).value.name != C.Auth
    ensures Dispatch(cfg, s, id, line, down) == Done(s, Fail(ClientNotAuthenticated))
  {
  }

  /** The right password authenticates the connection, which is then sent
      its id before OnClientAuthenticated runs. */
  lemma DispatchRightPassword(cfg: Config, s: ServerState, id: nat, line: Text, down: set<nat>)
    requires id in s.clients && !s.clients[id].authenticated && id !in down
    requires ParseLine(line) == Ok(Command(C.Auth, [cfg.password]))
    ensures var d := Dispatch(cfg, s, id, line, down);
      && d.outcome == Pass
      && d.state.clients == s.clients[id := s.clients[id].(authenticated := true)]
      && d.state.log == s.log + [Sent(id, WireLine(AuthSuccess(id))), ClientAuthenticated(id)]
  {
  }

  /** A wrong password is answered with authstatus error; the connection
      stays unauthenticated and is marked for kicking exactly when
      kickAfterWrongPassword is set (or it already was). */
  lemma DispatchWrongPassword(cfg: Config, s: ServerState, id: nat, line: Text, down: set<nat>)
    requires id in s.clients && !s.clients[id].authenticated && id !in down
    requires ParseLine(line).Ok? && ParseLine(line).value.name == C.Auth
    requires |ParseLine(line).value.args| > 0 && ParseLine(line).value.args[0] != cfg.password
    ensures var d := Dispatch(cfg, s, id, line, down);
      && d.outcome == Pass
      && d.state.clients == s.clients[id := ClientInstance(false, s.clients[id].shouldBeKicked || cfg.kickAfterWrongPassword)]
      && d.state.log == s.log + [Sent(id, WireLine(AuthError()))]
  {
    var cmd := ParseLine(line).value;
    assert Dispatch(cfg, s, id, line, down) == HandleUnauthenticated(cfg, s, id, cmd, down);
    assert HandleUnauthenticated(cfg, s, id, cmd, down) == WrongPassword(cfg, s, id, down);
    WrongPasswordEffect(cfg, s, id, down);
  }

  lemma WrongPasswordEffect(cfg: Config, s: ServerState, id: nat, down: set<nat>)
    requires id in s.clients && !s.clients[id].authenticated && id !in down
    ensures var d := WrongPassword(cfg, s, id, down);
      && d.outcome == Pass
      && d.state.clients == s.clients[id := ClientInstance(false, s.clients[id].shouldBeKicked || cfg.kickAfterWrongPassword)]
      && d.state.log == s.log + [Sent(id, WireLine(AuthError()))]
  {
    if cfg.kickAfterWrongPassword {
      WrongPasswordKicks(cfg, s, id, down);
    } else {
      WrongPasswordAnswers(cfg, s, id, down);
      FlagsKept(s.clients, id);
    }
  }

  lemma WrongPasswordKicks(cfg: Config, s: ServerState, id: nat, down: set<nat>)
    requires id in s.clients && !s.clients[id].authenticated && id !in down && cfg.kickAfterWrongPassword
    ensures WrongPassword(cfg, s, id, down) ==
      Done(s.(clients := s.clients[id := ClientInstance(false, true)], log := s.log + [Sent(id, WireLine(AuthError()))]), Pass)
  {
    var s1 := s.(log := s.log + [Sent(id, WireLine(AuthError()))]);
    assert SendCommand(s, id, AuthError(), down) == Done(s1, Pass);
    KickUnauthenticated(s1, id);
  }

  lemma WrongPasswordAnswers(cfg: Config, s: ServerState, id: nat, down: set<nat>)
    requires id in s.clients && id !in down && !cfg.kickAfterWrongPassword
    ensures WrongPassword(cfg, s, id, down) == Done(s.(log := s.log + [Sent(id, WireLine(AuthError()))]), Pass)
  {
  }

  lemma KickUnauthenticated(s: ServerState, id: nat)
    requires id in s.clients && !s.clients[id].authenticated
    ensures Kick(s, id) == Done(s.(clients := s.clients[id := ClientInstance(false, true)]), Pass)
  {
  }

  lemma FlagsKept(m: map<nat, ClientInstance>, id: nat)
    requires id in m && !m[id].authenticated
    ensures m == m[id := ClientInstance(false, m[id].shouldBeKicked)]
  {
  }

  /** An auth command without an argument raises IndexOutOfRangeException. */
  lemma DispatchAuthWithoutPassword(cfg: Config, s: ServerState, id: nat, line: Text, down: set<nat>)
    requires id in s.clients && !s.clients[id].authenticated
    requires ParseLine(line) == Ok(NameOnly(C.Auth))
    ensures Dispatch(cfg, s, id, line, down) == Done(s, Fail(IndexOutOfRange))
  {
  }

  /** Once authenticated: ping is answered with pong. */
  lemma DispatchPing(cfg: Config, s: ServerState, id: nat, line: Text, down: set<nat>)
    requires id in s.clients && s.clients[id].authenticated && id !in down
    requires ParseLine(line).Ok? && ParseLine(line).value.name == C.Ping
    ensures Dispatch(cfg, s, id, line, down) == Done(s.(log := s.log + [Sent(id, WireLine(Pong()))]), Pass)
  {
  }

  /** Once authenticated: msg hands its first argument to OnMessageReceived,
      and raises IndexOutOfRangeException without one. */
  lemma DispatchMessage(cfg: Config, s: ServerState, id: nat, line: Text, down: set<nat>)
    requires id in s.clients && s.clients[id].authenticated
    requires ParseLine(line).Ok? && ParseLine(line).value.name == C.Message
    ensures var args := ParseLine(line).value.args;
      Dispatch(cfg, s, id, line, down) ==
        if |args| == 0 then Done(s, Fail(IndexOutOfRange))
        else Done(s.(log := s.log + [MessageReceived(id, args[0])]), Pass)
  {
    PingMessageDistinct();
  }

  /** Once authenticated: every other name, auth included, raises
      InvalidCommandException. */
  lemma DispatchInvalid(cfg: Config, s: ServerState, id: nat, line: Text, down: set<nat>)
    requires id in s.clients && s.clients[id].authenticated
    requires ParseLine(line).Ok? && ParseLine(line).value.name !in {C.Ping, C.Message}
    ensures Dispatch(cfg, s, id, line, down) == Done(s, Fail(InvalidCommand))
  {
  }

  lemma PingMessageDistinct()
    ensures C.Ping != C.Message
  {
    C.CommandNamesAreTokens();
    assert C.CommandNames()[3] == C.Ping && C.CommandNames()[5] == C.Message;
  }

  /** The line a client sends with the right password, well-formed UTF-16,
      authenticates it. */
  lemma PasswordLineAuthenticates(cfg: Config, s: ServerState, id: nat, down: set<nat>)
    requires id in s.clients && !s.clients[id].authenticated && id !in down
    requires Utf16.WellFormed(cfg.password)
    ensures var d := Dispatch(cfg, s, id, Format(Command(C.Auth, [cfg.password])), down);
      d.outcome == Pass && d.state.clients[id].authenticated && d.state.log[|s.log| + 1] == ClientAuthenticated(id)
  {
    C.CommandNamesAreTokens();
    assert C.CommandNames()[4] == C.Auth;
    RoundTripWellFormed(Command(C.Auth, [cfg.password]));
    DispatchRightPassword(cfg, s, id, Format(Command(C.Auth, [cfg.password])), down);
  }

  // ---------------------------------------------------------------------
  // Authentication and kicking.

  /** When the success message cannot be written the connection is already
      marked authenticated, but OnClientAuthenticated never runs. */
  lemma AuthenticateWriteFails(s: ServerState, id: nat, down: set<nat>)
    requires id in s.clients && id in down
    ensures var d := Authenticate(s, id, down);
      && d.outcome == Fail(WriteFailed) && d.state.log == s.log
      && d.state.clients == s.clients[id := s.clients[id].(authenticated := true)]
  {
  }

  /** Kick only sets the flag, so kicking twice is kicking once. */
  lemma KickIdempotent(s: ServerState, id: nat)
    requires id in s.clients
    ensures Kick(s, id).outcome == Pass && Kick(s, id).state.clients[id].shouldBeKicked
    ensures Kick(Kick(s, id).state, id) == Kick(s, id)
  {
    var t := Kick(s, id).state;
    assert t.clients[id := t.clients[id].(shouldBeKicked := true)] == t.clients;
  }

  /** _clients[id] throws for an id that is not live. */
  lemma KickUnknown(s: ServerState, id: nat)
    requires id !in s.clients
    ensures Kick(s, id) == Done(s, Fail(KeyNotFound))
  {
  }

  /** The kick takes effect at the top of the next iteration, which closes
      the connection before any heartbeat or read. */
  lemma StepKicked(cfg: Config, s: ServerState, id: nat, elapsed: nat, input: Input, down: set<nat>)
    requires id in s.clients && id in s.routines && s.clients[id].shouldBeKicked
    ensures Step(cfg, s, id, elapsed, input, down) == Close(s, id)
    ensures var t := Step(cfg, s, id, elapsed, input, down);
      id !in t.clients && t.log == s.log + [ClientClosed(id)]
  {
  }

  /** A kick issued while a batch is dispatched (a wrong password with
      kickAfterWrongPassword) does not stop the batch: the lines after it are
      still dispatched, and the connection is closed only by the next Step. */
  lemma KickedBatchContinues(cfg: Config, s: ServerState, id: nat, wrong: Text, rest: seq<Text>, down: set<nat>)
    requires id in s.clients && !s.clients[id].authenticated && id !in down && cfg.kickAfterWrongPassword
    requires ParseLine(wrong).Ok? && ParseLine(wrong).value.name == C.Auth
    requires |ParseLine(wrong).value.args| > 0 && ParseLine(wrong).value.args[0] != cfg.password
    ensures var d := Dispatch(cfg, s, id, wrong, down);
      && d.outcome == Pass && d.state.clients[id].shouldBeKicked
      && ProcessLines(cfg, s, id, [wrong] + rest, down) == ProcessLines(cfg, d.state, id, rest, down)
  {
    DispatchWrongPassword(cfg, s, id, wrong, down);
    assert ([wrong] + rest)[0] == wrong && ([wrong] + rest)[1..] == rest;
  }

  // ---------------------------------------------------------------------
  // The loop of ClientRoutine.

  /** The countdown runs whatever the authentication state: while it stays
      positive only the countdown changes on an idle iteration. */
  lemma StepCountdown(cfg: Config, s: ServerState, id: nat, elapsed: nat, down: set<nat>)
    requires id in s.clients && id in s.routines && !s.clients[id].shouldBeKicked
    requires s.routines[id].timeUntilHeartbeat - elapsed > 0
    ensures Step(cfg, s, id, elapsed, Idle, down) ==
      s.(routines := s.routines[id := s.routines[id].(timeUntilHeartbeat := s.routines[id].timeUntilHeartbeat - elapsed)])
  {
  }

  /** When the countdown reaches zero it is reset to heartbeatInterval and one
      heartbeat is written. */
  lemma StepHeartbeat(cfg: Config, s: ServerState, id: nat, elapsed: nat, down: set<nat>)
    requires id in s.clients && id in s.routines && !s.clients[id].shouldBeKicked && id !in down
    requires s.routines[id].timeUntilHeartbeat - elapsed <= 0
    ensures Step(cfg, s, id, elapsed, Idle, down) ==
      s.(routines := s.routines[id := s.routines[id].(timeUntilHeartbeat := cfg.heartbeatInterval)],
         log := s.log + [Sent(id, WireLine(HeartbeatCommand()))])
  {
  }

  /** A heartbeat that cannot be written ends the routine. */
  lemma StepHeartbeatFails(cfg: Config, s: ServerState, id: nat, elapsed: nat, input: Input, down: set<nat>)
    requires id in s.clients && id in s.routines && !s.clients[id].shouldBeKicked && id in down
    requires s.routines[id].timeUntilHeartbeat - elapsed <= 0
    ensures var t := Step(cfg, s, id, elapsed, input, down);
      id !in t.clients && id !in t.routines && t.log == s.log + [ClientClosed(id)]
  {
  }

  /** A read that throws ends the routine. */
  lemma StepReadFails(cfg: Config, s: ServerState, id: nat, elapsed: nat, down: set<nat>)
    requires id in s.clients && id in s.routines
    ensures var t := Step(cfg, s, id, elapsed, ReadFailed, down);
      id !in t.clients && id !in t.routines && t.log[|t.log| - 1] == ClientClosed(id)
  {
  }

  /** A chunk that does not end in a newline is only buffered. */
  lemma StepBuffers(cfg: Config, s: ServerState, id: nat, elapsed: nat, chunk: Bytes, down: set<nat>)
    requires id in s.clients && id in s.routines && !s.clients[id].shouldBeKicked
    requires s.routines[id].timeUntilHeartbeat - elapsed > 0
    requires !EndsWith(Ascii.GetString(chunk), [LF])
    ensures Step(cfg, s, id, elapsed, Data(chunk), down) ==
      s.(routines := s.routines[id := Routine(s.routines[id].timeUntilHeartbeat - elapsed,
                                              s.routines[id].buffer + Ascii.GetString(chunk))])
  {
  }

  /** With ignoreMessageHandlerExceptions the routine survives every batch,
      and every line of it is dispatched. */
  lemma {:induction false} ProcessLinesIgnoring(cfg: Config, s: ServerState, id: nat, lines: seq<Text>, down: set<nat>)
    requires id in s.clients && cfg.ignoreMessageHandlerExceptions
    ensures ProcessLines(cfg, s, id, lines, down).alive
    decreases |lines|
  {
    if |lines| > 0 {
      var d := Dispatch(cfg, s, id, lines[0], down);
      var s1 := if d.outcome.Pass? then d.state else d.state.(log := d.state.log + [HandlerFailed(id, d.outcome.fault)]);
      assert id in s1.clients by { DispatchFrame(cfg, s, id, lines[0], down); }
      ProcessLinesIgnoring(cfg, s1, id, lines[1..], down);
      assert ProcessLines(cfg, s, id, lines, down) == ProcessLines(cfg, s1, id, lines[1..], down);
    }
  }

  /** Without it, the first failing line is logged and ends the batch: the
      lines after it are not dispatched and the routine ends. */
  lemma ProcessLinesStops(cfg: Config, s: ServerState, id: nat, line: Text, rest: seq<Text>, down: set<nat>)
    requires id in s.clients && !cfg.ignoreMessageHandlerExceptions
    requires Dispatch(cfg, s, id, line, down).outcome.Fail?
    ensures var d := Dispatch(cfg, s, id, line, down);
      ProcessLines(cfg, s, id, [line] + rest, down) ==
        Processed(d.state.(log := d.state.log + [HandlerFailed(id, d.outcome.fault)]), false)
  {
    assert ([line] + rest)[0] == line;
  }

  /** With it, a failing line is logged and the next line is dispatched. */
  lemma ProcessLinesSkips(cfg: Config, s: ServerState, id: nat, line: Text, rest: seq<Text>, down: set<nat>)
    requires id in s.clients && cfg.ignoreMessageHandlerExceptions
    requires Dispatch(cfg, s, id, line, down).outcome.Fail?
    ensures var d := Dispatch(cfg, s, id, line, down);
      ProcessLines(cfg, s, id, [line] + rest, down) ==
        ProcessLines(cfg, d.state.(log := d.state.log + [HandlerFailed(id, d.outcome.fault)]), id, rest, down)
  {
    assert ([line] + rest)[0] == line && ([line] + rest)[1..] == rest;
  }

  /** Before the countdown runs out, an iteration is its read. */
  lemma StepReads(cfg: Config, s: ServerState, id: nat, elapsed: nat, input: Input, down: set<nat>)
    requires id in s.clients && id in s.routines && !s.clients[id].shouldBeKicked
    requires s.routines[id].timeUntilHeartbeat - elapsed > 0
    ensures Step(cfg, s, id, elapsed, input, down) ==
      ReadPart(cfg, s.(routines := s.routines[id := s.routines[id].(timeUntilHeartbeat := s.routines[id].timeUntilHeartbeat - elapsed)]), id, input, down)
  {
    NoHeartbeat(cfg, s, id, elapsed, down);
  }

  /** Before the countdown runs out, only the countdown changes. */
  lemma NoHeartbeat(cfg: Config, s: ServerState, id: nat, elapsed: nat, down: set<nat>)
    requires id in s.clients && id in s.routines && s.routines[id].timeUntilHeartbeat - elapsed > 0
    ensures HeartbeatPart(cfg, s, id, elapsed, down) ==
      Done(s.(routines := s.routines[id := s.routines[id].(timeUntilHeartbeat := s.routines[id].timeUntilHeartbeat - elapsed)]), Pass)
  {
  }

  /** A batch that ends the routine closes the connection: it leaves the
      session table, and OnClientClosed is the last event. */
  lemma ReadClosesOnHandlerFailure(cfg: Config, s: ServerState, id: nat, chunk: Bytes, down: set<nat>)
    requires id in s.clients && id in s.routines
    requires var f := Feed(s.routines[id].buffer, chunk);
      !ProcessLines(cfg, s.(routines := s.routines[id := s.routines[id].(buffer := f.buffer)]), id, f.lines, down).alive
    ensures var t := ReadPart(cfg, s, id, Data(chunk), down);
      id !in t.clients && id !in t.routines && t.log[|t.log| - 1] == ClientClosed(id)
  {
  }

  // ---------------------------------------------------------------------
  // Messages from the server.

  /** SendMessageToClient writes msg to a live connection whether or not it
      is authenticated; an unknown id or a failed write is logged as a
      warning. Nothing else changes. */
  lemma SendMessageEffect(s: ServerState, id: nat, message: Text, down: set<nat>)
    ensures SendMessage(s, id, message, down) ==
      s.(log := s.log + [Delivery(s.clients.Keys, id, message, down)])
  {
  }

  /** The one event SendMessageToClient logs. */
  function Delivery(live: set<nat>, id: nat, message: Text, down: set<nat>): Event {
    if id !in live then SendFailed(id, KeyNotFound)
    else if id in down then SendFailed(id, WriteFailed)
    else Sent(id, WireLine(MessageCommand(message)))
  }

  /** SendMessageToEveryone logs one delivery per live connection, in the
      order the dictionary yields them, and changes nothing else. */
  lemma {:induction false} BroadcastEffect(s: ServerState, order: seq<nat>, message: Text, down: set<nat>)
    ensures var t := Broadcast(s, order, message, down);
      && t.clients == s.clients && t.routines == s.routines && t.nextClientId == s.nextClientId
      && |t.log| == |s.log| + |order| && t.log[..|s.log|] == s.log
      && forall k :: 0 <= k < |order| ==> t.log[|s.log| + k] == Delivery(s.clients.Keys, order[k], message, down)
    decreases |order|
  {
    var t := Broadcast(s, order, message, down);
    if |order| == 0 {
      assert t.log[..|s.log|] == s.log;
    } else {
      var n := |order| - 1;
      var u := Broadcast(s, order[..n], message, down);
      BroadcastEffect(s, order[..n], message, down);
      SendMessageEffect(u, order[n], message, down);
      assert t.log == u.log + [Delivery(s.clients.Keys, order[n], message, down)];
      assert t.log[..|s.log|] == u.log[..|s.log|];
      forall k | 0 <= k < |order| ensures t.log[|s.log| + k] == Delivery(s.clients.Keys, order[k], message, down) {
        if k < n { assert order[..n][k] == order[k]; }
      }
    }
  }
}
