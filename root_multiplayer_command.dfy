/** MultiplayerCommand.cs at the repository root: a second copy of the command
    struct that calls the root Base64Helper and nests its own Constants
    class. Its Parse and ToString are proved to compute what the Runtime copy
    computes, so every property proved there holds here too. */
module RootMultiplayerCommand {
  import opened Outcomes
  import opened Strings
  import RootBase64Helper
  import Base64Helper
  import MultiplayerConstants
  import opened MultiplayerCommand

  /** MultiplayerCommand.Parse of the root copy. */
  method Parse(input: Text) returns (r: Result<Command>)
    ensures r == ParseLine(input)
  {
    var parts := Split(input, Space);
    ghost var tokens := parts[1..];
    var args := new Text[|parts| - 1];
    for i := 1 to |parts|
      invariant DecodeAll(tokens[..i - 1]) == Ok(args[..i - 1])
    {
      assert tokens[i - 1] == parts[i];
      DecodeAllStep(tokens, i - 1);
      var d := RootBase64Helper.Decode(parts[i]);
      RootBase64Helper.SameAsRuntime([], parts[i]);
      if d.Err? {
        assert DecodeAll(tokens) == Err(FormatError);
        return Err(FormatError);
      }
      args[i - 1] := d.value;
      assert args[..i] == args[..i - 1] + [d.value];
    }
    assert tokens[..|parts| - 1] == tokens;
    assert DecodeAll(tokens[..|parts| - 1]) == Ok(args[..|parts| - 1]);
    assert args[..|parts| - 1] == args[..];
    assert DecodeAll(tokens).value == args[..];
    r := Ok(Command(parts[0], args[..]));
  }

  /** MultiplayerCommand.ToString of the root copy. */
  method ToString(c: Command) returns (line: Text)
    ensures line == Format(c)
  {
    line := c.name;
    for k := 0 to |c.args|
      invariant line == c.name + ArgTokens(c.args[..k])
    {
      ArgTokensStep(c.args, k);
      RootBase64Helper.SameAsRuntime(c.args[k], []);
      line := line + [Space];
      line := line + RootBase64Helper.Encode(c.args[k]);
    }
    assert c.args[..|c.args|] == c.args;
  }

  // MultiplayerCommand.Constants, nested in the root struct.
  const Heartbeat: Text := Lit("heartbeat")
  const PingResponse: Text := Lit("pong")
  const AuthStatus: Text := Lit("authstatus")
  const AuthStatusRequired: Text := Lit("required")
  const AuthStatusError: Text := Lit("error")
  const AuthStatusSuccess: Text := Lit("success")
  const Ping: Text := Lit("ping")
  const Auth: Text := Lit("auth")
  const Message: Text := Lit("msg")

  /** The nested constants have the values of Runtime/MultiplayerConstants.cs,
      so the two copies speak the same protocol. */
  lemma ConstantsAgree()
    ensures [Heartbeat, PingResponse, AuthStatus, Ping, Auth, Message] == MultiplayerConstants.CommandNames()
    ensures [AuthStatusRequired, AuthStatusError, AuthStatusSuccess] == MultiplayerConstants.SubStatuses()
  {
  }
}
