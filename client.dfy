/** Runtime/Client.cs as the component it is: an object whose flags, timers
    and message buffer are updated in place by its read loop. Every method is
    proved to leave the state that the function of the same statement in
    ClientLogic describes, and to keep its invariant. */
module Client {
  import opened Outcomes
  import opened Strings
  import C = MultiplayerConstants
  import MultiplayerCommand
  import opened Framer
  import Ascii
  import opened ClientLogic

  class Client {
    const cfg: Config
    var running: bool                 // _running
    var authenticated: bool           // _authenticated
    var authenticationRequired: bool  // the locals of ClientRoutine ...
    var timeUntilPing: int
    var lastPing: int
    var buffer: Text                  // ... messageBuilder
    var pingMilliseconds: int         // PingMilliseconds
    var closed: bool                  // ClientRoutine has ended
    var log: seq<Event>

    function State(): ClientState
      reads this
    {
      ClientState(running, authenticated, authenticationRequired, timeUntilPing, lastPing,
                  pingMilliseconds, buffer, closed, log)
    }

    ghost predicate Valid()
      reads this
    {
      Inv(State())
    }

    /** A component that has connected at time `now` and started its
        routine. */
    constructor(cfg: Config, now: int)
      ensures this.cfg == cfg && State() == Initial(now) && Valid()
    {
      this.cfg := cfg;
      running := true;
      authenticated := false;
      authenticationRequired := false;
      timeUntilPing := 0;
      lastPing := now;
      buffer := [];
      pingMilliseconds := 0;
      closed := false;
      log := [];
      new;
      InitialInv(now);
    }

    /** SendCommandToServer. */
    method SendCommandToServer(c: MultiplayerCommand.Command, broken: bool) returns (o: Outcome)
      modifies this
      ensures Done(State(), o) == SendCommand(old(State()), c, broken)
    {
      if broken || closed {
        return Fail(WriteFailed);
      }
      var line := MultiplayerCommand.ToString(c);
      log := log + [Sent(line + [LF])];
      return Pass;
    }

    /** The try block around one command line. */
    method HandleCommand(line: Text, now: int) returns (o: Outcome)
      modifies this
      ensures Done(State(), o) == Dispatch(old(State()), line, now)
    {
      var r := MultiplayerCommand.Parse(line);
      if r.Err? {
        return Fail(r.fault);
      }
      var cmd := r.value;
      if cmd.name == C.AuthStatus {
        o := HandleAuthStatus(cmd.args);
      } else if cmd.name == C.Heartbeat {
        return Pass;
      } else if cmd.name == C.PingResponse {
        pingMilliseconds := now - lastPing;
        return Pass;
      } else if cmd.name == C.Message {
        if |cmd.args| == 0 {
          return Fail(IndexOutOfRange);
        }
        log := log + [MessageReceived(cmd.args[0])];
        return Pass;
      } else {
        return Pass;
      }
    }

    method HandleAuthStatus(args: seq<Text>) returns (o: Outcome)
      modifies this
      ensures Done(State(), o) == AuthStatus(old(State()), args)
    {
      if |args| == 0 {
        return Fail(IndexOutOfRange);
      }
      if args[0] == C.AuthStatusRequired {
        authenticationRequired := true;
      } else if args[0] == C.AuthStatusSuccess {
        if !authenticated {
          authenticated := true;
          authenticationRequired := false;
          if |args| < 2 {
            return Fail(IndexOutOfRange);
          }
          var id := ParseUInt(args[1]);
          if id.Err? {
            return Fail(id.fault);
          }
          log := log + [AuthenticatedSuccessfully(id.value)];
        }
      } else if args[0] == C.AuthStatusError {
        running := false;
        if |args| < 2 {
          return Fail(IndexOutOfRange);
        }
      }
      return Pass;
    }

    /** The foreach over the lines a read released. */
    method DispatchLines(lines: seq<Text>, now: int) returns (alive: bool)
      modifies this
      ensures Processed(State(), alive) == ProcessLines(cfg, old(State()), lines, now)
    {
      ghost var s0 := State();
      var i := 0;
      alive := true;
      while i < |lines| && alive
        invariant 0 <= i <= |lines|
        invariant alive ==> ProcessLines(cfg, State(), lines[i..], now) == ProcessLines(cfg, s0, lines, now)
        invariant !alive ==> Processed(State(), false) == ProcessLines(cfg, s0, lines, now)
      {
        assert lines[i..][0] == lines[i] && lines[i..][1..] == lines[i + 1..];
        var o := HandleCommand(lines[i], now);
        if o.Fail? {
          log := log + [HandlerFailed(o.fault)];
          if !cfg.ignoreMessageHandlerExceptions {
            alive := false;
          }
        }
        i := i + 1;
      }
      if alive {
        assert lines[i..] == [];
      }
    }

    /** The finally block of ClientRoutine. */
    method CloseRoutine()
      modifies this
      ensures State() == Close(old(State()))
    {
      closed := true;
      log := log + [ServerClosed];
    }

    /** One turn of the loop of ClientRoutine, given the time since the last
        frame, the clock, and what the stream had to offer. */
    method Step(elapsed: nat, now: int, input: Input, broken: bool)
      requires Valid() && !closed
      modifies this
      ensures State() == ClientLogic.Step(cfg, old(State()), elapsed, now, input, broken)
      ensures Valid()
    {
      StepInv(cfg, State(), elapsed, now, input, broken);
      ghost var s0 := State();
      if !running {
        CloseRoutine();
        return;
      }
      var o := CountDown(elapsed, now, broken);
      if o.Fail? {
        CloseRoutine();
        return;
      }
      ghost var s1 := State();
      assert s1 == PingPart(cfg, s0, elapsed, now, broken).state;
      o := AnswerAuthRequest(broken);
      if o.Fail? {
        CloseRoutine();
        return;
      }
      assert State() == AuthPart(cfg, s1, broken).state;
      match input {
        case Idle =>
        case ReadFailed =>
          CloseRoutine();
        case Data(chunk) =>
          var alive := Read(chunk, now);
          if !alive {
            CloseRoutine();
          }
      }
    }

    /** The ping countdown, which runs only while authenticated. */
    method CountDown(elapsed: nat, now: int, broken: bool) returns (o: Outcome)
      modifies this
      ensures Done(State(), o) == PingPart(cfg, old(State()), elapsed, now, broken)
    {
      if authenticated {
        timeUntilPing := timeUntilPing - elapsed;
        if timeUntilPing <= 0 {
          timeUntilPing := cfg.pingInterval;
          lastPing := now;
          o := SendCommandToServer(PingCommand(), broken);
          return;
        }
      }
      return Pass;
    }

    /** The password, sent when the server asked for it. */
    method AnswerAuthRequest(broken: bool) returns (o: Outcome)
      modifies this
      ensures Done(State(), o) == AuthPart(cfg, old(State()), broken)
    {
      if !authenticated && authenticationRequired {
        o := SendCommandToServer(AuthCommand(cfg.password), broken);
        if o.Fail? {
          return;
        }
        authenticationRequired := false;
      }
      return Pass;
    }

    /** A chunk read from the stream: appended to messageBuilder, and the
        lines it completes dispatched. */
    method Read(chunk: Bytes, now: int) returns (alive: bool)
      modifies this
      ensures var f := Feed(old(buffer), chunk);
        Processed(State(), alive) == ProcessLines(cfg, old(State()).(buffer := f.buffer), f.lines, now)
    {
      var messageChunk := Ascii.GetString(chunk);
      var text := buffer + messageChunk;
      var lines := [];
      if EndsWith(messageChunk, [LF]) {
        lines := Split(TrimEnd(text), LF);
        text := [];
      }
      assert Feed(buffer, chunk) == Fed(text, lines);
      buffer := text;
      alive := DispatchLines(lines, now);
    }

    method SendMessageToServer(message: Text, broken: bool)
      requires Valid()
      modifies this
      ensures State() == SendMessage(old(State()), message, broken)
      ensures Valid()
    {
      SendMessageInv(State(), message, broken);
      if !authenticated {
        log := log + [SendFailed(ClientNotAuthenticated)];
        return;
      }
      var o := SendCommandToServer(MessageCommand(message), broken);
      if o.Fail? {
        log := log + [SendFailed(o.fault)];
      }
    }

    method Disconnect()
      requires Valid()
      modifies this
      ensures State() == ClientLogic.Disconnect(old(State()))
      ensures Valid()
    {
      DisconnectInv(State());
      running := false;
    }
  }
}
