/** The two ends together: every command one side writes is framed and
    parsed intact by the other, and is then handled the way the protocol
    intends, from the password request to the authenticated session. */
module Protocol {
  import opened Outcomes
  import opened Strings
  import C = MultiplayerConstants
  import opened MultiplayerCommand
  import opened Framer
  import Ascii
  import Utf16
  import S = ServerLogic
  import K = ClientLogic

  /** ASCII text has no surrogates. */
  lemma {:induction false} AsciiWellFormed(t: Text)
    requires IsAscii(t)
    ensures Utf16.WellFormed(t)
    decreases |t|
  {
    if |t| > 0 {
      assert !Utf16.IsHighSurrogate(t[0]) && !Utf16.IsLowSurrogate(t[0]);
      forall i | 0 <= i < |t[1..]| ensures t[1..][i] < 0x80 {
        assert t[1..][i] == t[i + 1];
      }
      AsciiWellFormed(t[1..]);
    }
  }

  lemma DigitsWellFormed(n: nat)
    ensures Utf16.WellFormed(ToDecimal(n)) && ToDecimal(n) != []
  {
    AsciiWellFormed(ToDecimal(n));
  }

  lemma StatusesWellFormed()
    ensures Utf16.WellFormed(C.AuthStatusRequired) && C.AuthStatusRequired != []
    ensures Utf16.WellFormed(C.AuthStatusSuccess)
    ensures Utf16.WellFormed(S.WrongPasswordReason) && S.WrongPasswordReason != []
  {
    AsciiWellFormed(C.AuthStatusRequired);
    AsciiWellFormed(C.AuthStatusSuccess);
    AsciiWellFormed(S.WrongPasswordReason);
  }

  lemma NamesAreTokens()
    ensures Space !in C.Heartbeat && Space !in C.PingResponse && Space !in C.AuthStatus
    ensures Space !in C.Ping && Space !in C.Auth && Space !in C.Message
    ensures IsAscii(C.Heartbeat) && IsAscii(C.PingResponse) && IsAscii(C.AuthStatus)
    ensures IsAscii(C.Ping) && IsAscii(C.Auth) && IsAscii(C.Message)
    ensures LF !in C.Heartbeat && LF !in C.PingResponse && LF !in C.AuthStatus
    ensures LF !in C.Ping && LF !in C.Auth && LF !in C.Message
  {
    C.CommandNamesAreTokens();
    var names := C.CommandNames();
    assert names[0] == C.Heartbeat && names[1] == C.PingResponse && names[2] == C.AuthStatus;
    assert names[3] == C.Ping && names[4] == C.Auth && names[5] == C.Message;
  }

  /** Every command the server writes survives the line framing; a message
      does exactly when it is well-formed and not empty, since an empty last
      argument leaves a trailing space that TrimEnd removes. */
  lemma ServerCommandsFramable(id: nat)
    ensures Framable(S.AuthRequired()) && Framable(S.AuthSuccess(id)) && Framable(S.AuthError())
    ensures Framable(S.Pong()) && Framable(S.HeartbeatCommand())
  {
    NamesAreTokens();
    StatusesWellFormed();
    DigitsWellFormed(id);
    assert C.PingResponse[|C.PingResponse| - 1] == 'g' as Unit;
    assert C.Heartbeat[|C.Heartbeat| - 1] == 't' as Unit;
  }

  lemma MessageFramable(message: Text)
    ensures Framable(S.MessageCommand(message)) <==> Utf16.WellFormed(message) && message != []
    ensures S.MessageCommand(message) == K.MessageCommand(message)
  {
    NamesAreTokens();
  }

  lemma ClientCommandsFramable(password: Text)
    ensures Framable(K.PingCommand())
    ensures Framable(K.AuthCommand(password)) <==> Utf16.WellFormed(password) && password != []
  {
    NamesAreTokens();
    assert C.Ping[|C.Ping| - 1] == 'g' as Unit;
  }

  /** A command written as one line, read in however many chunks, arrives
      as one line that parses back to the same command, and leaves nothing
      in the buffer. */
  lemma WireDelivers(c: Command, chunks: seq<Bytes>)
    requires Framable(c)
    requires Concat(chunks) == Ascii.GetBytes(WireLine(c))
    ensures FeedAll([], chunks) == Fed([], [Format(c)])
    ensures ParseLine(Format(c)) == Ok(c)
  {
    FramableSendable(c);
    assert Stream([Format(c)]) == WireLine(c) by {
      assert Stream([Format(c)]) == Format(c) + [LF] + Stream([]);
    }
    FramingDeliversLines([Format(c)], chunks);
    RoundTripWellFormed(c);
  }

  // The client's handling of each line the server writes.

  lemma ClientReadsAuthRequired(s: K.ClientState, now: int)
    ensures K.Dispatch(s, Format(S.AuthRequired()), now) == K.Done(s.(authenticationRequired := true), Pass)
  {
    NamesAreTokens();
    StatusesWellFormed();
    OneArgumentParses(C.AuthStatus, C.AuthStatusRequired);
    K.DispatchRequired(s, Format(S.AuthRequired()), now, []);
  }

  lemma OneArgumentParses(name: Text, a: Text)
    requires Space !in name && Utf16.WellFormed(a)
    ensures ParseLine(Format(Command(name, [a]))) == Ok(Command(name, [a] + []))
  {
    RoundTripWellFormed(Command(name, [a]));
    assert [a] == [a] + [];
  }

  /** The id the server sends is the id the client reports, the first time;
      a repeated success changes nothing. */
  lemma ClientReadsAuthSuccess(s: K.ClientState, id: nat, now: int)
    requires id <= UInt32Max
    ensures K.Dispatch(s, Format(S.AuthSuccess(id)), now) ==
      if s.authenticated then K.Done(s, Pass)
      else K.Done(s.(authenticated := true, authenticationRequired := false,
                     log := s.log + [K.AuthenticatedSuccessfully(id)]), Pass)
  {
    NamesAreTokens();
    StatusesWellFormed();
    DigitsWellFormed(id);
    var c := S.AuthSuccess(id);
    RoundTripWellFormed(c);
    if s.authenticated {
      assert c == Command(C.AuthStatus, [C.AuthStatusSuccess] + [ToDecimal(id)]);
      K.DispatchLaterSuccess(s, Format(c), now, [ToDecimal(id)]);
    } else {
      K.DispatchFirstSuccess(s, Format(c), now, id);
    }
  }

  /** authstatus error with a well-formed reason. */
  lemma ClientReadsError(s: K.ClientState, reason: Text, now: int)
    requires Utf16.WellFormed(reason)
    ensures K.Dispatch(s, Format(Command(C.AuthStatus, [C.AuthStatusError, reason])), now) ==
      K.Done(s.(running := false), Pass)
  {
    NamesAreTokens();
    AsciiWellFormed(C.AuthStatusError);
    TwoArgumentsParse(C.AuthStatus, C.AuthStatusError, reason);
    K.DispatchError(s, Format(Command(C.AuthStatus, [C.AuthStatusError, reason])), now, [reason]);
  }

  lemma TwoArgumentsParse(name: Text, a: Text, b: Text)
    requires Space !in name && Utf16.WellFormed(a) && Utf16.WellFormed(b)
    ensures ParseLine(Format(Command(name, [a, b]))) == Ok(Command(name, [a] + [b]))
  {
    var c := Command(name, [a, b]);
    RoundTripWellFormed(c);
    assert [a, b] == [a] + [b];
  }

  lemma ClientReadsAuthError(s: K.ClientState, now: int)
    ensures K.Dispatch(s, Format(S.AuthError()), now) == K.Done(s.(running := false), Pass)
  {
    StatusesWellFormed();
    ClientReadsError(s, S.WrongPasswordReason, now);
  }

  lemma ClientReadsHeartbeatAndPong(s: K.ClientState, now: int)
    ensures K.Dispatch(s, Format(S.HeartbeatCommand()), now) == K.Done(s, Pass)
    ensures K.Dispatch(s, Format(S.Pong()), now) == K.Done(s.(pingMilliseconds := now - s.lastPing), Pass)
  {
    NamesAreTokens();
    var h := S.HeartbeatCommand();
    RoundTripWellFormed(h);
    K.DispatchQuiet(s, Format(h), now);
    var p := S.Pong();
    RoundTripWellFormed(p);
    K.DispatchPong(s, Format(p), now);
  }

  lemma ClientReadsMessage(s: K.ClientState, message: Text, now: int)
    requires Utf16.WellFormed(message)
    ensures K.Dispatch(s, Format(S.MessageCommand(message)), now) ==
      K.Done(s.(log := s.log + [K.MessageReceived(message)]), Pass)
  {
    NamesAreTokens();
    var c := S.MessageCommand(message);
    RoundTripWellFormed(c);
    K.DispatchMessage(s, Format(c), now);
  }

  /** The server's handling of each line the client writes, on an
      authenticated connection. */
  lemma ServerReadsClient(cfg: S.Config, s: S.ServerState, id: nat, message: Text, down: set<nat>)
    requires id in s.clients && s.clients[id].authenticated && id !in down
    requires Utf16.WellFormed(message)
    ensures S.Dispatch(cfg, s, id, Format(K.PingCommand()), down) ==
      S.Done(s.(log := s.log + [S.Sent(id, WireLine(S.Pong()))]), Pass)
    ensures S.Dispatch(cfg, s, id, Format(K.MessageCommand(message)), down) ==
      S.Done(s.(log := s.log + [S.MessageReceived(id, message)]), Pass)
  {
    NamesAreTokens();
    var p := K.PingCommand();
    RoundTripWellFormed(p);
    S.DispatchPing(cfg, s, id, Format(p), down);
    var m := K.MessageCommand(message);
    RoundTripWellFormed(m);
    S.DispatchMessage(cfg, s, id, Format(m), down);
  }

  /** The password the client sends authenticates the connection when it
      is the server's. */
  lemma ServerReadsPassword(cfg: S.Config, s: S.ServerState, id: nat, password: Text)
    requires id in s.clients && !s.clients[id].authenticated
    requires password == cfg.password && Utf16.WellFormed(password)
    ensures var d := S.Dispatch(cfg, s, id, Format(K.AuthCommand(password)), {});
      && d.outcome == Pass && d.state.clients == s.clients[id := s.clients[id].(authenticated := true)]
      && d.state.log == s.log + [S.Sent(id, WireLine(S.AuthSuccess(id))), S.ClientAuthenticated(id)]
  {
    var a := K.AuthCommand(password);
    assert ParseLine(Format(a)) == Ok(Command(C.Auth, [cfg.password])) by {
      NamesAreTokens();
      RoundTripWellFormed(a);
    }
    S.DispatchRightPassword(cfg, s, id, Format(a), {});
  }

  /** The server's half of the handshake: a new connection is asked for the
      password, and the right password authenticates it under its id. */
  lemma ServerHandshake(cfg: S.Config, s: S.ServerState)
    requires cfg.password != [] && Utf16.WellFormed(cfg.password)
    ensures var id := s.nextClientId;
      var s1 := S.Accept(cfg, s, {});
      && s1.log == s.log + [S.Sent(id, WireLine(S.AuthRequired()))]
      && s1.clients == s.clients[id := S.ClientInstance(false, false)]
      && var s2 := S.Dispatch(cfg, s1, id, Format(K.AuthCommand(cfg.password)), {});
         && s2.outcome == Pass && s2.state.clients == s.clients[id := S.ClientInstance(true, false)]
         && s2.state.log == s1.log + [S.Sent(id, WireLine(S.AuthSuccess(id))), S.ClientAuthenticated(id)]
  {
    var id := s.nextClientId;
    var s1 := S.Accept(cfg, s, {});
    assert s1.log == s.log + [S.Sent(id, WireLine(S.AuthRequired()))]
        && s1.clients == s.clients[id := S.ClientInstance(false, false)] by {
      S.AcceptWithPassword(cfg, s, {});
    }
    ServerReadsPassword(cfg, s1, id, cfg.password);
    UpdateTwice(s.clients, id, S.ClientInstance(false, false), S.ClientInstance(true, false));
  }

  lemma UpdateTwice<V>(m: map<nat, V>, k: nat, a: V, b: V)
    ensures m[k := a][k := b] == m[k := b]
  {
  }

  /** The client's half: the request is answered with the password on the
      next turn, and the success that follows authenticates the client under
      the id it carries. */
  lemma ClientHandshake(cfg: K.Config, k: K.ClientState, id: nat, elapsed: nat, now: int)
    requires id <= UInt32Max
    requires !k.closed && k.running && !k.authenticated
    ensures K.Dispatch(k, Format(S.AuthRequired()), now) == K.Done(k.(authenticationRequired := true), Pass)
    ensures var k2 := K.Step(cfg, k.(authenticationRequired := true), elapsed, now, Idle, false);
      var k3 := K.Dispatch(k2, Format(S.AuthSuccess(id)), now);
      && k2.log == k.log + [K.Sent(WireLine(K.AuthCommand(cfg.password)))]
      && k3.outcome == Pass && k3.state.authenticated && !k3.state.authenticationRequired
      && k3.state.log == k2.log + [K.AuthenticatedSuccessfully(id)]
  {
    ClientReadsAuthRequired(k, now);
    var k1 := k.(authenticationRequired := true);
    var k2 := K.Step(cfg, k1, elapsed, now, Idle, false);
    assert k2 == k1.(authenticationRequired := false,
                     log := k1.log + [K.Sent(WireLine(K.AuthCommand(cfg.password)))]) by {
      K.StepSendsPassword(cfg, k1, elapsed, now, false);
    }
    ClientReadsAuthSuccess(k2, id, now);
  }
}
