/** Runtime/Server.cs as the component it is: an object whose session table,
    id counter and per-connection routine state are updated in place. Every
    method is proved to leave the state that the function of the same
    statement in ServerLogic describes, and to keep its invariant. */
module Server {
  import opened Outcomes
  import opened Strings
  import C = MultiplayerConstants
  import MultiplayerCommand
  import opened Framer
  import Ascii
  import opened ServerLogic

  class Server {
    const cfg: Config
    var clients: map<nat, ClientInstance>   // _clients
    var routines: map<nat, Routine>         // the locals of the running ClientRoutines
    var nextClientId: nat                   // _nextClientId
    var log: seq<Event>

    function State(): ServerState
      reads this
    {
      ServerState(clients, routines, nextClientId, log)
    }

    ghost predicate Valid()
      reads this
    {
      Inv(State())
    }

    constructor(cfg: Config)
      ensures this.cfg == cfg && State() == Initial() && Valid()
    {
      this.cfg := cfg;
      clients := map[];
      routines := map[];
      nextClientId := 0;
      log := [];
      new;
      InitialInv();
    }

    /** SendCommandToClient: the command and a newline, written to the
        connection's stream. */
    method SendCommandToClient(id: nat, c: MultiplayerCommand.Command, down: set<nat>) returns (o: Outcome)
      modifies this
      ensures Done(State(), o) == SendCommand(old(State()), id, c, down)
    {
      if id !in clients {
        return Fail(KeyNotFound);
      }
      if id in down {
        return Fail(WriteFailed);
      }
      var line := MultiplayerCommand.ToString(c);
      log := log + [Sent(id, line + [LF])];
      return Pass;
    }

    method Authenticate(id: nat, down: set<nat>) returns (o: Outcome)
      requires id in clients
      modifies this
      ensures Done(State(), o) == ServerLogic.Authenticate(old(State()), id, down)
    {
      clients := clients[id := clients[id].(authenticated := true)];
      o := SendCommandToClient(id, AuthSuccess(id), down);
      if o.Fail? {
        return;
      }
      log := log + [ClientAuthenticated(id)];
    }

    method Kick(id: nat) returns (o: Outcome)
      modifies this
      ensures Done(State(), o) == ServerLogic.Kick(old(State()), id)
      ensures old(Valid()) ==> Valid()
    {
      if Valid() { KickInv(State(), id); }
      if id !in clients {
        return Fail(KeyNotFound);
      }
      clients := clients[id := clients[id].(shouldBeKicked := true)];
      return Pass;
    }

    /** The try block around one command line. */
    method HandleCommand(line: Text, id: nat, down: set<nat>) returns (o: Outcome)
      requires id in clients
      modifies this
      ensures Done(State(), o) == Dispatch(cfg, old(State()), id, line, down)
    {
      var r := MultiplayerCommand.Parse(line);
      if r.Err? {
        return Fail(r.fault);
      }
      var cmd := r.value;
      ghost var s := State();
      if clients[id].authenticated {
        assert Dispatch(cfg, s, id, line, down) == HandleAuthenticated(s, id, cmd, down);
        if cmd.name == C.Ping {
          o := SendCommandToClient(id, Pong(), down);
        } else if cmd.name == C.Message {
          if |cmd.args| == 0 {
            return Fail(IndexOutOfRange);
          }
          log := log + [MessageReceived(id, cmd.args[0])];
          return Pass;
        } else {
          return Fail(InvalidCommand);
        }
      } else {
        assert Dispatch(cfg, s, id, line, down) == HandleUnauthenticated(cfg, s, id, cmd, down);
        if cmd.name != C.Auth {
          return Fail(ClientNotAuthenticated);
        }
        if |cmd.args| == 0 {
          return Fail(IndexOutOfRange);
        }
        if cmd.args[0] == cfg.password {
          o := Authenticate(id, down);
        } else {
          assert Dispatch(cfg, s, id, line, down) == WrongPassword(cfg, s, id, down);
          o := SendCommandToClient(id, AuthError(), down);
          if o.Pass? && cfg.kickAfterWrongPassword {
            o := Kick(id);
          }
        }
      }
    }

    /** The finally block of ClientRoutine. */
    method CloseClient(id: nat)
      modifies this
      ensures State() == Close(old(State()), id)
    {
      clients := clients - {id};
      routines := routines - {id};
      log := log + [ClientClosed(id)];
    }

    /** One iteration of the loop of ClientRoutine for connection id, given
        the time since the last frame and what the stream had to offer. */
    method Step(id: nat, elapsed: nat, input: Input, down: set<nat>)
      requires Valid() && id in clients && id in routines
      modifies this
      ensures State() == ServerLogic.Step(cfg, old(State()), id, elapsed, input, down)
      ensures Valid()
    {
      StepInv(cfg, State(), id, elapsed, input, down);
      if clients[id].shouldBeKicked {
        CloseClient(id);
        return;
      }
      var o := CountDown(id, elapsed, down);
      if o.Fail? {
        CloseClient(id);
        return;
      }
      Read(id, input, down);
    }

    /** The heartbeat countdown of connection id. */
    method CountDown(id: nat, elapsed: nat, down: set<nat>) returns (o: Outcome)
      requires id in clients && id in routines
      modifies this
      ensures Done(State(), o) == HeartbeatPart(cfg, old(State()), id, elapsed, down)
    {
      var r := routines[id];
      var timeUntilHeartbeat := r.timeUntilHeartbeat - elapsed;
      var beat := timeUntilHeartbeat <= 0;
      if beat {
        timeUntilHeartbeat := cfg.heartbeatInterval;
      }
      routines := routines[id := r.(timeUntilHeartbeat := timeUntilHeartbeat)];
      if beat {
        o := SendCommandToClient(id, HeartbeatCommand(), down);
      } else {
        o := Pass;
      }
    }

    /** What the stream of connection id had to offer: nothing, a chunk
        appended to messageBuilder and the lines it completes dispatched, or
        an exception that ends the routine. */
    method Read(id: nat, input: Input, down: set<nat>)
      requires id in clients && id in routines
      modifies this
      ensures State() == ReadPart(cfg, old(State()), id, input, down)
    {
      match input {
        case Idle =>
        case ReadFailed =>
          CloseClient(id);
        case Data(chunk) =>
          var messageChunk := Ascii.GetString(chunk);
          var buffer := routines[id].buffer + messageChunk;
          var lines := [];
          if EndsWith(messageChunk, [LF]) {
            lines := Split(TrimEnd(buffer), LF);
            buffer := [];
          }
          assert Feed(routines[id].buffer, chunk) == Fed(buffer, lines);
          routines := routines[id := routines[id].(buffer := buffer)];
          var alive := DispatchLines(id, lines, down);
          if !alive {
            CloseClient(id);
          }
      }
    }

    /** The foreach over the lines a read released. */
    method DispatchLines(id: nat, lines: seq<Text>, down: set<nat>) returns (alive: bool)
      requires id in clients
      modifies this
      ensures Processed(State(), alive) == ProcessLines(cfg, old(State()), id, lines, down)
    {
      ghost var s0 := State();
      var i := 0;
      alive := true;
      while i < |lines| && alive
        invariant 0 <= i <= |lines|
        invariant id in clients
        invariant alive ==> ProcessLines(cfg, State(), id, lines[i..], down) == ProcessLines(cfg, s0, id, lines, down)
        invariant !alive ==> Processed(State(), false) == ProcessLines(cfg, s0, id, lines, down)
      {
        ghost var s := State();
        assert lines[i..][0] == lines[i] && lines[i..][1..] == lines[i + 1..];
        DispatchFrame(cfg, s, id, lines[i], down);
        var o := HandleCommand(lines[i], id, down);
        if o.Fail? {
          log := log + [HandlerFailed(id, o.fault)];
          if !cfg.ignoreMessageHandlerExceptions {
            alive := false;
          }
        }
        i := i + 1;
      }
      if alive {
        assert lines[i..] == [];
      }
    }

    /** A pending connection accepted under the next id. */
    method Accept(down: set<nat>) returns (id: nat)
      requires Valid()
      modifies this
      ensures id == old(nextClientId)
      ensures State() == ServerLogic.Accept(cfg, old(State()), down)
      ensures Valid()
    {
      AcceptInv(cfg, State(), down);
      ghost var s0 := State();
      id := nextClientId;
      nextClientId := nextClientId + 1;
      clients := clients[id := ClientInstance(false, false)];
      routines := routines[id := Routine(cfg.heartbeatInterval, [])];
      assert State() == Register(s0, Routine(cfg.heartbeatInterval, []));
      var o := Welcome(id, down);
      if o.Fail? {
        CloseClient(id);
      }
    }

    /** The first write of ClientRoutine: the id, or the request for a
        password. */
    method Welcome(id: nat, down: set<nat>) returns (o: Outcome)
      requires id in clients
      modifies this
      ensures Done(State(), o) == ServerLogic.Welcome(cfg, old(State()), id, down)
    {
      if cfg.password == [] {
        o := Authenticate(id, down);
      } else {
        o := SendCommandToClient(id, AuthRequired(), down);
      }
    }

    method SendMessageToClient(id: nat, message: Text, down: set<nat>)
      requires Valid()
      modifies this
      ensures State() == SendMessage(old(State()), id, message, down)
      ensures Valid()
    {
      SendMessageInv(State(), id, message, down);
      var o := SendCommandToClient(id, MessageCommand(message), down);
      if o.Fail? {
        log := log + [SendFailed(id, o.fault)];
      }
    }

    /** SendMessageToEveryone. The dictionary's enumeration order is not
        specified, so the method picks one and returns it: every live id
        exactly once. */
    method SendMessageToEveryone(message: Text, down: set<nat>) returns (order: seq<nat>)
      requires Valid()
      modifies this
      ensures |order| == |old(clients).Keys|
      ensures forall k :: k in order <==> k in old(clients)
      ensures forall i, j :: 0 <= i < j < |order| ==> order[i] != order[j]
      ensures State() == Broadcast(old(State()), order, message, down)
      ensures Valid()
    {
      ghost var s0 := State();
      var keys := clients.Keys;
      var left := keys;
      order := [];
      while left != {}
        invariant left <= keys && keys == s0.clients.Keys
        invariant forall k :: k in order <==> k in keys && k !in left
        invariant |order| + |left| == |keys|
        invariant forall i, j :: 0 <= i < j < |order| ==> order[i] != order[j]
        invariant State() == Broadcast(s0, order, message, down)
        invariant Valid()
        decreases left
      {
        var id :| id in left;
        BroadcastEffect(s0, order, message, down);
        SendMessageToClient(id, message, down);
        assert (order + [id])[..|order|] == order;
        order := order + [id];
        left := left - {id};
      }
    }
  }
}
