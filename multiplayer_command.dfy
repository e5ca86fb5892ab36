/** Runtime/MultiplayerCommand.cs: one protocol command and its one-line
    text form, the command name followed by one space-separated base64 token
    per argument. */
module MultiplayerCommand {
  import opened Outcomes
  import opened Strings
  import Utf16
  import Base64
  import opened Base64Helper

  /** The MultiplayerCommand struct: the Command field and the Args array. */
  datatype Command = Command(name: Text, args: seq<Text>)

  /** new MultiplayerCommand(command): Args is Array.Empty<string>(). */
  function NameOnly(command: Text): Command {
    Command(command, [])
  }

  /** What the foreach of ToString appends: ' ' and the encoding, per
      argument. */
  function ArgTokens(args: seq<Text>): Text
    decreases |args|
  {
    if |args| == 0 then []
    else ArgTokens(args[..|args| - 1]) + [Space] + Encode(args[|args| - 1])
  }

  lemma ArgTokensStep(args: seq<Text>, k: nat)
    requires k < |args|
    ensures ArgTokens(args[..k + 1]) == ArgTokens(args[..k]) + [Space] + Encode(args[k])
  {
    assert args[..k + 1][..k] == args[..k];
  }

  /** The line ToString builds. */
  function Format(c: Command): Text {
    c.name + ArgTokens(c.args)
  }

  /** MultiplayerCommand.ToString: appends to a StringBuilder. */
  method ToString(c: Command) returns (line: Text)
    ensures line == Format(c)
  {
    line := c.name;
    for k := 0 to |c.args|
      invariant line == c.name + ArgTokens(c.args[..k])
    {
      line := line + [Space];
      line := line + Encode(c.args[k]);
      assert line == c.name + ArgTokens(c.args[..k + 1]) by {
        ArgTokensStep(c.args, k);
        SeqAssoc3(c.name, ArgTokens(c.args[..k]), [Space], Encode(c.args[k]));
      }
    }
    assert c.args[..|c.args|] == c.args;
  }

  lemma SeqAssoc3(a: Text, b: Text, c: Text, d: Text)
    ensures a + (b + c + d) == a + b + c + d
  {
  }

  /** Every token decoded, in order; FormatException if any token is not
      base64. */
  function DecodeAll(tokens: seq<Text>): (r: Result<seq<Text>>)
    ensures r.Ok? <==> forall i :: 0 <= i < |tokens| ==> Decode(tokens[i]).Ok?
    ensures r.Ok? ==> |r.value| == |tokens| &&
                      forall i :: 0 <= i < |tokens| ==> r.value[i] == Decode(tokens[i]).value
    ensures r.Err? ==> r.fault == FormatError
    decreases |tokens|
  {
    if |tokens| == 0 then Ok([])
    else
      var init := tokens[..|tokens| - 1];
      assert forall i :: 0 <= i < |init| ==> init[i] == tokens[i];
      match DecodeAll(init)
      case Err(f) => Err(f)
      case Ok(front) =>
        match Decode(tokens[|tokens| - 1])
        case Err(f) => Err(f)
        case Ok(last) =>
          var r := front + [last];
          assert forall i :: 0 <= i < |init| ==> r[i] == front[i];
          Ok(r)
  }

  /** What Parse computes: Split(' '); parts[0] verbatim as the name; every
      later part decoded as an argument. */
  function ParseLine(input: Text): Result<Command> {
    var parts := Split(input, Space);
    match DecodeAll(parts[1..])
    case Err(f) => Err(f)
    case Ok(args) => Ok(Command(parts[0], args))
  }

  /** MultiplayerCommand.Parse: fills the args array in a for loop; the
      FormatException of Decode propagates. */
  method Parse(input: Text) returns (r: Result<Command>)
    ensures r == ParseLine(input)
  {
    var parts := Split(input, Space);
    ghost var tokens := parts[1..];
    var args := new Text[|parts| - 1];
    for i := 1 to |parts|
      invariant DecodeAll(tokens[..i - 1]) == Ok(args[..i - 1])
    {
      assert tokens[i - 1] == parts[i];
      DecodeAllStep(tokens, i - 1);
      var d := Decode(parts[i]);
      if d.Err? {
        assert DecodeAll(tokens) == Err(FormatError);
        assert ParseLine(input) == Err(FormatError);
        return Err(d.fault);
      }
      args[i - 1] := d.value;
      assert args[..i] == args[..i - 1] + [d.value];
    }
    assert tokens[..|parts| - 1] == tokens;
    assert DecodeAll(tokens[..|parts| - 1]) == Ok(args[..|parts| - 1]);
    assert args[..|parts| - 1] == args[..];
    assert DecodeAll(tokens).value == args[..];
    assert DecodeAll(tokens) == Ok(args[..]);
    assert ParseLine(input) == Ok(Command(parts[0], args[..]));
    r := Ok(Command(parts[0], args[..]));
  }

  /** Decoding one more token: the list grows by its value, or the whole
      decoding fails. */
  lemma DecodeAllStep(tokens: seq<Text>, k: nat)
    requires k < |tokens| && DecodeAll(tokens[..k]).Ok?
    ensures Decode(tokens[k]).Ok? ==>
              DecodeAll(tokens[..k + 1]) == Ok(DecodeAll(tokens[..k]).value + [Decode(tokens[k]).value])
    ensures Decode(tokens[k]).Err? ==> DecodeAll(tokens) == Err(FormatError)
  {
    assert tokens[..k + 1][..k] == tokens[..k];
    assert tokens[..k + 1][k] == tokens[k];
  }

  /** The name is the input up to its first space, taken verbatim. */
  lemma ParseName(input: Text)
    requires ParseLine(input).Ok?
    ensures var name := ParseLine(input).value.name;
            Space !in name && (name == input || (|name| < |input| && input[..|name| + 1] == name + [Space]))
  {
    SplitHead(input, Space);
  }

  /** Parse succeeds exactly when every token after the first decodes, and
      then the i-th argument is the decoding of token i. */
  lemma ParseArgs(input: Text)
    ensures var parts := Split(input, Space);
            && (ParseLine(input).Ok? <==> forall i :: 1 <= i < |parts| ==> Decode(parts[i]).Ok?)
            && (ParseLine(input).Ok? ==>
                  |ParseLine(input).value.args| == |parts| - 1 &&
                  forall i :: 1 <= i < |parts| ==> ParseLine(input).value.args[i - 1] == Decode(parts[i]).value)
  {
    var parts := Split(input, Space);
    var tokens := parts[1..];
    var d := DecodeAll(tokens);
    assert ParseLine(input).Ok? == d.Ok?;
    if forall i :: 1 <= i < |parts| ==> Decode(parts[i]).Ok? {
      forall j | 0 <= j < |tokens| ensures Decode(tokens[j]).Ok? {
        assert tokens[j] == parts[j + 1];
      }
      assert d.Ok?;
      assert ParseLine(input).value.args == d.value;
      forall i | 1 <= i < |parts| ensures d.value[i - 1] == Decode(parts[i]).value {
        assert tokens[i - 1] == parts[i];
      }
    } else {
      var bad :| 1 <= bad < |parts| && !Decode(parts[bad]).Ok?;
      assert tokens[bad - 1] == parts[bad];
      assert !d.Ok?;
      assert !Decode(Split(input, Space)[bad]).Ok?;
    }
  }

  /** A token that is not base64 makes Parse throw FormatException. */
  lemma ParseRejects(input: Text, i: nat)
    requires 1 <= i < |Split(input, Space)| && Decode(Split(input, Space)[i]).Err?
    ensures ParseLine(input) == Err(FormatError)
  {
    ParseArgs(input);
  }

  /** Parse("") is the empty command, not an error. */
  lemma ParseEmpty()
    ensures ParseLine([]) == Ok(Command([], []))
  {
  }

  /** "cmd " parses to cmd with one empty argument. */
  lemma ParseTrailingSpace(name: Text)
    requires Space !in name
    ensures ParseLine(name + [Space]) == Ok(Command(name, [[]]))
  {
    SplitAfterPiece(name, Space, []);
    assert name + [Space] + [] == name + [Space];
    assert Split([], Space) == [[]];
    EncodeDecodeEmpty();
    var one: seq<Text> := [[]];
    assert one[..0] == [];
    assert DecodeAll(one[..0]) == Ok([]);
    assert DecodeAll(one).Ok?;
    assert DecodeAll(one).value == [[]];
    assert DecodeAll(one) == Ok([[]]);
  }

  /** A command made with the one-argument constructor prints as its name. */
  lemma FormatNameOnly(name: Text)
    ensures NameOnly(name).args == [] && Format(NameOnly(name)) == name
  {
  }

  /** One more argument adds one separator and its encoding at the end. */
  lemma FormatAppend(name: Text, args: seq<Text>, a: Text)
    ensures Format(Command(name, args + [a])) == Format(Command(name, args)) + [Space] + Encode(a)
  {
    assert (args + [a])[..|args|] == args;
  }

  /** The encoded arguments, in order. */
  function EncodeAll(args: seq<Text>): (r: seq<Text>)
    ensures |r| == |args| && forall i :: 0 <= i < |args| ==> r[i] == Encode(args[i])
  {
    seq(|args|, i requires 0 <= i < |args| => Encode(args[i]))
  }

  /** The line is the name and the encoded arguments joined by single
      spaces: no separator before the name and none after the last token. */
  lemma {:induction false} FormatIsJoin(c: Command)
    ensures Format(c) == Join([c.name] + EncodeAll(c.args), Space)
    decreases |c.args|
  {
    var n := |c.args|;
    if n > 0 {
      var init, last := c.args[..n - 1], c.args[n - 1];
      var p := [c.name] + EncodeAll(init);
      assert c.args == init + [last];
      FormatAppend(c.name, init, last);
      FormatIsJoin(Command(c.name, init));
      JoinSnoc(p, Space, Encode(last));
      EncodeAllSnoc(c.args);
      assert [c.name] + EncodeAll(c.args) == p + [Encode(last)];
    }
  }

  lemma EncodeAllSnoc(args: seq<Text>)
    requires |args| > 0
    ensures EncodeAll(args) == EncodeAll(args[..|args| - 1]) + [Encode(args[|args| - 1])]
  {
    var n := |args|;
    var a, b := EncodeAll(args), EncodeAll(args[..n - 1]) + [Encode(args[n - 1])];
    forall i | 0 <= i < n ensures a[i] == b[i] {
      if i < n - 1 { assert args[..n - 1][i] == args[i]; }
    }
  }

  /** The arguments with their lone surrogates replaced. */
  function ScrubAll(args: seq<Text>): (r: seq<Text>)
    ensures |r| == |args| && forall i :: 0 <= i < |args| ==> r[i] == Utf16.Scrub(args[i])
  {
    seq(|args|, i requires 0 <= i < |args| => Utf16.Scrub(args[i]))
  }

  /** Parsing a printed command gives back its name and its arguments (with
      lone surrogates replaced), whenever the name holds no space. */
  lemma RoundTrip(c: Command)
    requires Space !in c.name
    ensures ParseLine(Format(c)) == Ok(Command(c.name, ScrubAll(c.args)))
  {
    var pieces := [c.name] + EncodeAll(c.args);
    FormatIsJoin(c);
    forall i | 0 <= i < |pieces| ensures Space !in pieces[i] {
      if i > 0 { EncodeIsToken(c.args[i - 1]); }
    }
    SplitJoin(pieces, Space);
    var tokens := pieces[1..];
    assert tokens == EncodeAll(c.args);
    forall i | 0 <= i < |tokens| ensures Decode(tokens[i]) == Ok(Utf16.Scrub(c.args[i])) {
      DecodeEncode(c.args[i]);
    }
    assert DecodeAll(tokens).value == ScrubAll(c.args);
  }

  /** Parse(ToString(c)) == c when the name holds no space and every
      argument is well-formed UTF-16. */
  lemma RoundTripWellFormed(c: Command)
    requires Space !in c.name
    requires forall i :: 0 <= i < |c.args| ==> Utf16.WellFormed(c.args[i])
    ensures ParseLine(Format(c)) == Ok(c)
  {
    RoundTrip(c);
    forall i | 0 <= i < |c.args| ensures ScrubAll(c.args)[i] == c.args[i] {
      Utf16.ScrubIdentity(c.args[i]);
    }
    assert ScrubAll(c.args) == c.args;
  }

  /** The printed line is one line, and ASCII when the name is. */
  lemma FormatIsLine(c: Command)
    ensures LF !in c.name ==> LF !in Format(c)
    ensures IsAscii(c.name) ==> IsAscii(Format(c))
  {
    var pieces := [c.name] + EncodeAll(c.args);
    FormatIsJoin(c);
    forall i | 0 <= i < |c.args| ensures LF !in Encode(c.args[i]) && IsAscii(Encode(c.args[i])) {
      EncodeIsToken(c.args[i]);
    }
    assert forall i :: 1 <= i < |pieces| ==> pieces[i] == Encode(c.args[i - 1]);
    JoinShape(pieces, Space);
  }

  /** The printed line ends in a base64 character when the last argument is
      nonempty, and in a space when it is empty. */
  lemma FormatLastUnit(c: Command)
    requires |c.args| > 0
    ensures var line := Format(c);
            && |line| > 0
            && (c.args[|c.args| - 1] != [] ==> !IsWhiteSpace(line[|line| - 1]))
            && (c.args[|c.args| - 1] == [] ==> line[|line| - 1] == Space)
  {
    var n := |c.args|;
    var last := c.args[n - 1];
    var e := Encode(last);
    assert Format(c) == Format(Command(c.name, c.args[..n - 1])) + [Space] + e;
    if last != [] {
      assert |e| > 0;
      EncodeIsToken(last);
      assert e[|e| - 1] < 0x80 && e[|e| - 1] != Space && (Base64.IsAlphabet(e[|e| - 1]) || e[|e| - 1] == Base64.Pad);
    } else {
      EncodeDecodeEmpty();
    }
  }

  /** Joining ASCII pieces without line feeds, using an ASCII separator that
      is not a line feed, gives such a string. */
  lemma {:induction false} JoinShape(parts: seq<Text>, sep: Unit)
    requires sep != LF && sep < 0x80
    ensures (forall i :: 0 <= i < |parts| ==> LF !in parts[i]) ==> LF !in Join(parts, sep)
    ensures (forall i :: 0 <= i < |parts| ==> IsAscii(parts[i])) ==> IsAscii(Join(parts, sep))
    decreases |parts|
  {
    if |parts| > 1 {
      JoinShape(parts[1..], sep);
      var rest := Join(parts[1..], sep);
      var whole := parts[0] + [sep] + rest;
      if forall i :: 0 <= i < |parts| ==> IsAscii(parts[i]) {
        assert IsAscii(parts[0]);
        assert forall i :: 0 <= i < |parts| - 1 ==> parts[1..][i] == parts[i + 1];
        forall k | 0 <= k < |whole| ensures whole[k] < 0x80 {
          if k > |parts[0]| { assert whole[k] == rest[k - |parts[0]| - 1]; }
        }
      }
      if forall i :: 0 <= i < |parts| ==> LF !in parts[i] {
        assert LF !in parts[0];
        assert forall i :: 0 <= i < |parts| - 1 ==> parts[1..][i] == parts[i + 1];
      }
    }
  }
}
