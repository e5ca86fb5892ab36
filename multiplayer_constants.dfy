/** Runtime/MultiplayerConstants.cs: the reserved command names and the
    authstatus sub-statuses of the protocol. */
module MultiplayerConstants {
  import opened Strings

  // Sent by the server.
  const Heartbeat: Text := Lit("heartbeat")
  const PingResponse: Text := Lit("pong")
  const AuthStatus: Text := Lit("authstatus")
  const AuthStatusRequired: Text := Lit("required")
  const AuthStatusError: Text := Lit("error")
  const AuthStatusSuccess: Text := Lit("success")

  // Sent by the client.
  const Ping: Text := Lit("ping")
  const Auth: Text := Lit("auth")

  // Sent by both.
  const Message: Text := Lit("msg")

  /** The command names, in the order the file declares them. */
  function CommandNames(): seq<Text> {
    [Heartbeat, PingResponse, AuthStatus, Ping, Auth, Message]
  }

  /** The three sub-statuses an authstatus command carries. */
  function SubStatuses(): seq<Text> {
    [AuthStatusRequired, AuthStatusError, AuthStatusSuccess]
  }

  /** The command names are pairwise distinct, nonempty and free of spaces
      and line feeds, so each survives the line codec as its first token. */
  lemma CommandNamesAreTokens()
    ensures forall i, j :: 0 <= i < j < |CommandNames()| ==> CommandNames()[i] != CommandNames()[j]
    ensures forall i :: 0 <= i < |CommandNames()| ==>
              |CommandNames()[i]| > 0 && Space !in CommandNames()[i] && LF !in CommandNames()[i]
              && IsAscii(CommandNames()[i])
  {
    var names := CommandNames();
    assert Heartbeat[0] != PingResponse[0] && Heartbeat[0] != AuthStatus[0] && Heartbeat[0] != Ping[0];
    assert Heartbeat[0] != Auth[0] && Heartbeat[0] != Message[0];
    assert PingResponse[1] != Ping[1] && PingResponse[0] != AuthStatus[0] && PingResponse[0] != Auth[0];
    assert PingResponse[0] != Message[0];
    assert |AuthStatus| != |Auth| && AuthStatus[0] != Ping[0] && AuthStatus[0] != Message[0];
    assert Ping[0] != Auth[0] && Ping[0] != Message[0] && Auth[0] != Message[0];
  }

  /** The sub-statuses are pairwise distinct. */
  lemma SubStatusesDistinct()
    ensures forall i, j :: 0 <= i < j < |SubStatuses()| ==> SubStatuses()[i] != SubStatuses()[j]
  {
    assert AuthStatusRequired[0] != AuthStatusError[0];
    assert AuthStatusRequired[0] != AuthStatusSuccess[0];
    assert AuthStatusError[0] != AuthStatusSuccess[0];
  }
}
