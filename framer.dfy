/** The line framing that the read loops of Runtime/Server.cs and
    Runtime/Client.cs share: each read is decoded as ASCII and appended to a
    StringBuilder; when the chunk just read ends in '\n', the whole buffer is
    trimmed of trailing white space, split on '\n', every piece is handled as
    one command, and the buffer is cleared. */
module Framer {
  import opened Outcomes
  import opened Strings
  import Base64
  import Base64Helper
  import Ascii
  import Utf16
  import MultiplayerConstants
  import opened MultiplayerCommand

  type Bytes = seq<Base64.Byte>

  /** The buffer after one read, and the lines that read released, in order. */
  datatype Fed = Fed(buffer: Text, lines: seq<Text>)

  /** What one iteration of a read loop finds on the stream: no data
      available, a chunk read, or a read that threw. */
  datatype Input = Idle | Data(chunk: Bytes) | ReadFailed

  /** One read: messageBuilder.Append(GetString(chunk)), and the flush when
      messageChunk.EndsWith("\n"). */
  function Feed(buffer: Text, chunk: Bytes): Fed {
    var text := Ascii.GetString(chunk);
    if EndsWith(text, [LF]) then Fed([], Split(TrimEnd(buffer + text), LF))
    else Fed(buffer + text, [])
  }

  /** A chunk that does not end in '\n' is only buffered; one that does clears
      the buffer and releases pieces free of '\n' that join back to the
      trimmed buffer. */
  lemma FeedReleases(buffer: Text, chunk: Bytes)
    ensures var text := Ascii.GetString(chunk);
            var r := Feed(buffer, chunk);
            && (!EndsWith(text, [LF]) ==> r.buffer == buffer + text && r.lines == [])
            && (EndsWith(text, [LF]) ==>
                  && r.buffer == []
                  && |r.lines| >= 1
                  && (forall i :: 0 <= i < |r.lines| ==> LF !in r.lines[i])
                  && Join(r.lines, LF) == TrimEnd(buffer + text))
  {
    JoinSplit(TrimEnd(buffer + Ascii.GetString(chunk)), LF);
  }

  /** A buffer of just "\n" yields one empty line. */
  lemma FeedNewlineOnly()
    ensures Feed([], [0x0A]) == Fed([], [[]])
  {
    var text := Ascii.GetString([0x0A]);
    assert text == [LF];
    assert TrimEnd([LF]) == [];
  }

  /** Trailing white space is all TrimEnd takes off. */
  lemma {:induction false} TrimEndKeeps(s: Text, w: Text)
    requires s == [] || !IsWhiteSpace(s[|s| - 1])
    requires forall i :: 0 <= i < |w| ==> IsWhiteSpace(w[i])
    ensures TrimEnd(s + w) == s
    decreases |w|
  {
    if |w| == 0 {
      assert s + w == s;
    } else {
      assert (s + w)[..|s + w| - 1] == s + w[..|w| - 1];
      TrimEndKeeps(s, w[..|w| - 1]);
    }
  }

  /** Reading the bytes of an ASCII text that ends in '\n' into an empty
      buffer releases the trimmed text split on '\n'. */
  lemma FeedAsciiLine(t: Text)
    requires IsAscii(t) && |t| > 0 && t[|t| - 1] == LF
    ensures Feed([], Ascii.GetBytes(t)) == Fed([], Split(TrimEnd(t), LF))
  {
    var b := Ascii.GetBytes(t);
    Ascii.GetStringGetBytes(t);
    EndsWithLast(t);
    FeedFlush(b, t);
  }

  lemma EndsWithLast(t: Text)
    requires |t| > 0 && t[|t| - 1] == LF
    ensures EndsWith(t, [LF])
  {
    assert t[|t| - 1..] == [LF];
  }

  lemma FeedFlush(b: Bytes, t: Text)
    requires Ascii.GetString(b) == t && EndsWith(t, [LF])
    ensures Feed([], b) == Fed([], Split(TrimEnd(t), LF))
  {
    assert [] + t == t;
  }

  /** A blank line between two lines becomes an empty command of its own. */
  lemma FeedBlankLine(a: Text, b: Text)
    requires IsAscii(a) && IsAscii(b) && LF !in a && LF !in b
    requires b != [] && !IsWhiteSpace(b[|b| - 1])
    ensures Feed([], Ascii.GetBytes(a + [LF, LF] + b + [LF])).lines == [a, [], b]
    ensures ParseLine([]) == Ok(Command([], []))
  {
    var s := a + [LF, LF] + b;
    AsciiJoin(a, [LF, LF], b);
    assert s[|s| - 1] == b[|b| - 1];
    FeedTrimmed(s, [LF]);
    SplitThree(a, b);
    ParseEmpty();
  }

  /** Reading a text followed by white space that ends in '\n' releases the
      text split on '\n'. */
  lemma FeedTrimmed(s: Text, w: Text)
    requires IsAscii(s) && IsAscii(w) && w != [] && w[|w| - 1] == LF
    requires s == [] || !IsWhiteSpace(s[|s| - 1])
    requires forall i :: 0 <= i < |w| ==> IsWhiteSpace(w[i])
    ensures Feed([], Ascii.GetBytes(s + w)).lines == Split(s, LF)
  {
    var t := s + w;
    assert t[|t| - 1] == LF by {
      assert t[|s| + |w| - 1] == w[|w| - 1];
    }
    AsciiAppend(s, w);
    FeedAsciiLine(t);
    TrimEndKeeps(s, w);
  }

  lemma AsciiJoin(a: Text, m: Text, b: Text)
    requires IsAscii(a) && IsAscii(m) && IsAscii(b)
    ensures IsAscii(a + m + b)
  {
    AsciiAppend(a, m);
    AsciiAppend(a + m, b);
  }

  lemma SplitThree(a: Text, b: Text)
    requires LF !in a && LF !in b
    ensures Split(a + [LF, LF] + b, LF) == [a, [], b]
  {
    var rest := [LF] + b;
    assert Split(rest, LF) == [[], b] by {
      SplitNoSep(b, LF);
      var e: Text := [];
      assert e + [LF] + b == rest;
      SplitAfterPiece(e, LF, b);
    }
    assert Split(a + [LF] + rest, LF) == [a] + Split(rest, LF) by {
      SplitAfterPiece(a, LF, rest);
    }
    assert a + [LF] + rest == a + [LF, LF] + b;
  }

  lemma SplitTwo(a: Text, b: Text)
    requires LF !in a && LF !in b
    ensures Split(a + [LF] + b, LF) == [a, b]
  {
    SplitNoSep(b, LF);
    SplitAfterPiece(a, LF, b);
  }

  /** A command name that the line codec and the framing carry intact. */
  predicate NameToken(name: Text) {
    IsAscii(name) && Space !in name && LF !in name && name != [] && !IsWhiteSpace(name[|name| - 1])
  }

  /** A command with one empty argument, such as `msg` sent with an empty
      message, prints as its name and a trailing space. */
  lemma EmptyArgumentLine(name: Text)
    requires NameToken(name)
    ensures Format(Command(name, [[]])) == name + [Space]
    ensures IsAscii(name + [Space]) && LF !in name + [Space]
    ensures ParseLine(name) == Ok(NameOnly(name))
    ensures ParseLine(name + [Space]) == Ok(Command(name, [[]]))
  {
    FormatAppend(name, [], []);
    FormatNameOnly(name);
    Base64Helper.EncodeDecodeEmpty();
    AsciiAppend(name, [Space]);
    SplitNoSep(name, Space);
    ParseArgs(name);
    ParseTrailingSpace(name);
  }

  /** As the last line of the buffer, "msg " loses its trailing space to
      TrimEnd, so `msg` with one empty argument arrives as `msg` with no
      argument at all. */
  lemma EmptyArgumentAtEnd(name: Text)
    requires NameToken(name)
    ensures Feed([], Ascii.GetBytes(Format(Command(name, [[]])) + [LF])).lines == [name]
    ensures ParseLine(name) == Ok(NameOnly(name))
  {
    EmptyArgumentLine(name);
    FeedTrailingSpace(name, Format(Command(name, [[]])));
  }

  lemma FeedTrailingSpace(name: Text, line: Text)
    requires IsAscii(name) && LF !in name && name != [] && !IsWhiteSpace(name[|name| - 1])
    requires line == name + [Space]
    ensures Feed([], Ascii.GetBytes(line + [LF])).lines == [name]
  {
    assert name + [Space] + [LF] == name + [Space, LF];
    FeedTrimmed(name, [Space, LF]);
    SplitNoSep(name, LF);
  }

  /** Followed by another line, "msg " keeps its empty argument. */
  lemma EmptyArgumentInside(name: Text, other: Text)
    requires NameToken(name)
    requires IsAscii(other) && LF !in other && other != [] && !IsWhiteSpace(other[|other| - 1])
    ensures var line := Format(Command(name, [[]]));
            && Feed([], Ascii.GetBytes(line + [LF] + other + [LF])).lines == [line, other]
            && ParseLine(line) == Ok(Command(name, [[]]))
  {
    EmptyArgumentLine(name);
    FeedTwoLines(name + [Space], other);
  }

  /** Two lines read at once are released as two lines when the second
      does not end in white space. */
  lemma FeedTwoLines(a: Text, b: Text)
    requires IsAscii(a) && LF !in a
    requires IsAscii(b) && LF !in b && b != [] && !IsWhiteSpace(b[|b| - 1])
    ensures Feed([], Ascii.GetBytes(a + [LF] + b + [LF])).lines == [a, b]
  {
    var both := a + [LF] + b;
    AsciiJoin(a, [LF], b);
    assert both[|both| - 1] == b[|b| - 1];
    FeedTrimmed(both, [LF]);
    SplitTwo(a, b);
  }

  /** What SendCommandToClient and SendCommandToServer write: command + "\n". */
  function WireLine(c: Command): Text {
    Format(c) + [LF]
  }

  /** A command with an ASCII name is written as ASCII, so Encoding.ASCII
      writes it byte for byte. */
  lemma WireLineAscii(c: Command)
    requires IsAscii(c.name)
    ensures IsAscii(WireLine(c))
    ensures Ascii.GetString(Ascii.GetBytes(WireLine(c))) == WireLine(c)
  {
    FormatIsLine(c);
    AsciiAppend(Format(c), [LF]);
    Ascii.GetStringGetBytes(WireLine(c));
  }

  /** The lines as they travel: each followed by '\n'. */
  function Stream(lines: seq<Text>): Text
    decreases |lines|
  {
    if |lines| == 0 then [] else lines[0] + [LF] + Stream(lines[1..])
  }

  /** All chunks in the order they were read. */
  function Concat(chunks: seq<Bytes>): Bytes
    decreases |chunks|
  {
    if |chunks| == 0 then [] else chunks[0] + Concat(chunks[1..])
  }

  /** Reads one after another, collecting every released line. */
  function FeedAll(buffer: Text, chunks: seq<Bytes>): Fed
    decreases |chunks|
  {
    if |chunks| == 0 then Fed(buffer, [])
    else
      var f := Feed(buffer, chunks[0]);
      var rest := FeedAll(f.buffer, chunks[1..]);
      Fed(rest.buffer, f.lines + rest.lines)
  }

  /** A line the framing delivers intact: no '\n', and a last unit that
      TrimEnd keeps. */
  predicate Sendable(line: Text) {
    LF !in line && line != [] && !IsWhiteSpace(line[|line| - 1])
  }

  lemma {:induction false} StreamAppend(xs: seq<Text>, ys: seq<Text>)
    ensures Stream(xs + ys) == Stream(xs) + Stream(ys)
    decreases |xs|
  {
    if |xs| == 0 {
      assert xs + ys == ys;
    } else {
      assert (xs + ys)[1..] == xs[1..] + ys;
      StreamAppend(xs[1..], ys);
    }
  }

  lemma {:induction false} StreamIsJoin(lines: seq<Text>)
    requires |lines| >= 1
    ensures Stream(lines) == Join(lines, LF) + [LF]
    decreases |lines|
  {
    if |lines| > 1 {
      StreamIsJoin(lines[1..]);
    }
  }

  lemma {:induction false} StreamAscii(lines: seq<Text>)
    requires forall i :: 0 <= i < |lines| ==> IsAscii(lines[i])
    ensures IsAscii(Stream(lines))
    decreases |lines|
  {
    if |lines| > 0 {
      StreamAscii(lines[1..]);
      assert IsAscii(lines[0]);
      AsciiAppend(lines[0], [LF]);
      AsciiAppend(lines[0] + [LF], Stream(lines[1..]));
    }
  }

  /** Joined pieces end where the last piece ends. */
  lemma JoinLast(parts: seq<Text>, sep: Unit)
    requires |parts| >= 1 && parts[|parts| - 1] != []
    ensures var j := Join(parts, sep); var last := parts[|parts| - 1];
            j != [] && j[|j| - 1] == last[|last| - 1]
  {
    var n := |parts|;
    if n > 1 {
      JoinSnoc(parts[..n - 1], sep, parts[n - 1]);
      assert parts[..n - 1] + [parts[n - 1]] == parts;
    }
  }

  /** Flushing a buffer of whole sendable lines releases exactly those lines. */
  lemma TrimSplitStream(lines: seq<Text>)
    requires |lines| >= 1 && forall i :: 0 <= i < |lines| ==> Sendable(lines[i])
    ensures Split(TrimEnd(Stream(lines)), LF) == lines
  {
    var j := Join(lines, LF);
    StreamIsJoin(lines);
    assert TrimEnd(j + [LF]) == j by {
      var last := lines[|lines| - 1];
      assert Sendable(last);
      JoinLast(lines, LF);
      TrimEndKeeps(j, [LF]);
    }
    assert Split(j, LF) == lines by {
      assert forall i :: 0 <= i < |lines| ==> LF !in lines[i];
      SplitJoin(lines, LF);
    }
  }

  /** A prefix of the stream that ends in '\n' is a whole number of lines. */
  lemma {:induction false} Boundary(lines: seq<Text>, p: Text) returns (k: nat)
    requires forall i :: 0 <= i < |lines| ==> LF !in lines[i]
    requires |p| <= |Stream(lines)| && p == Stream(lines)[..|p|]
    requires |p| > 0 && p[|p| - 1] == LF
    ensures 1 <= k <= |lines| && p == Stream(lines[..k])
    decreases |lines|
  {
    var l0 := lines[0];
    var rest := Stream(lines[1..]);
    assert Stream(lines) == l0 + [LF] + rest;
    if |p| <= |l0| {
      assert false;
    } else if |p| == |l0| + 1 {
      k := 1;
      assert lines[..1][1..] == [];
    } else {
      var q := p[|l0| + 1..];
      assert q == rest[..|q|];
      var k' := Boundary(lines[1..], q);
      k := k' + 1;
      assert lines[..k][1..] == lines[1..][..k'];
      assert p == l0 + [LF] + q;
    }
  }

  /** A read that ends in '\n' releases a whole number of lines, and the
      rest of the stream is the stream of the remaining lines. */
  lemma FlushAtBoundary(buffer: Text, chunk: Bytes, later: Text, lines: seq<Text>) returns (k: nat)
    requires forall i :: 0 <= i < |lines| ==> Sendable(lines[i])
    requires buffer + Ascii.GetString(chunk) + later == Stream(lines)
    requires EndsWith(Ascii.GetString(chunk), [LF])
    ensures k <= |lines| && Feed(buffer, chunk) == Fed([], lines[..k]) && later == Stream(lines[k..])
  {
    var p := buffer + Ascii.GetString(chunk);
    assert p[|p| - 1] == LF;
    assert p == Stream(lines)[..|p|];
    assert forall i :: 0 <= i < |lines| ==> LF !in lines[i];
    k := Boundary(lines, p);
    assert lines == lines[..k] + lines[k..];
    StreamAppend(lines[..k], lines[k..]);
    TrimSplitStream(lines[..k]);
  }

  /** A read that does not end in '\n' is held, and the buffer still does
      not end in '\n'. */
  lemma Hold(buffer: Text, chunk: Bytes)
    requires buffer == [] || buffer[|buffer| - 1] != LF
    requires !EndsWith(Ascii.GetString(chunk), [LF])
    ensures var p := buffer + Ascii.GetString(chunk);
            Feed(buffer, chunk) == Fed(p, []) && (p == [] || p[|p| - 1] != LF)
  {
    var c := Ascii.GetString(chunk);
    if |c| > 0 {
      assert c[|c| - 1] != LF;
      assert (buffer + c)[|buffer + c| - 1] == c[|c| - 1];
    } else {
      assert buffer + c == buffer;
    }
  }

  /** Taking the first chunk off the reads still to come. */
  lemma ReadFirst(buffer: Text, chunks: seq<Bytes>, s: Text)
    requires |chunks| > 0 && buffer + Ascii.GetString(Concat(chunks)) == s
    ensures buffer + Ascii.GetString(chunks[0]) + Ascii.GetString(Concat(chunks[1..])) == s
  {
    var x, y := Ascii.GetString(chunks[0]), Ascii.GetString(Concat(chunks[1..]));
    assert Ascii.GetString(Concat(chunks)) == x + y by {
      assert Concat(chunks) == chunks[0] + Concat(chunks[1..]);
      Ascii.GetStringAppend(chunks[0], Concat(chunks[1..]));
    }
    SeqAssoc(buffer, x, y);
  }

  lemma SeqAssoc(a: Text, b: Text, c: Text)
    ensures a + (b + c) == a + b + c
  {
  }

  /** The framing invariant: whatever has been read and not yet released,
      followed by the chunks still to come, is the stream of the lines still
      to be released; the buffer never ends in '\n'. */
  lemma {:induction false} FeedAllStream(buffer: Text, chunks: seq<Bytes>, lines: seq<Text>)
    requires forall i :: 0 <= i < |lines| ==> Sendable(lines[i])
    requires buffer + Ascii.GetString(Concat(chunks)) == Stream(lines)
    requires buffer == [] || buffer[|buffer| - 1] != LF
    ensures FeedAll(buffer, chunks) == Fed([], lines)
    decreases |chunks|, 1
  {
    if |chunks| == 0 {
      assert buffer == Stream(lines);
      if |lines| > 0 {
        StreamIsJoin(lines);
        assert false;
      }
    } else if EndsWith(Ascii.GetString(chunks[0]), [LF]) {
      FeedAllFlush(buffer, chunks, lines);
    } else {
      FeedAllHold(buffer, chunks, lines);
    }
  }

  /** The invariant across a read that releases lines. */
  lemma {:induction false} FeedAllFlush(buffer: Text, chunks: seq<Bytes>, lines: seq<Text>)
    requires forall i :: 0 <= i < |lines| ==> Sendable(lines[i])
    requires buffer + Ascii.GetString(Concat(chunks)) == Stream(lines)
    requires |chunks| > 0 && EndsWith(Ascii.GetString(chunks[0]), [LF])
    ensures FeedAll(buffer, chunks) == Fed([], lines)
    decreases |chunks|, 0
  {
    var later := Ascii.GetString(Concat(chunks[1..]));
    ReadFirst(buffer, chunks, Stream(lines));
    var k := FlushAtBoundary(buffer, chunks[0], later, lines);
    assert [] + later == later;
    FeedAllStream([], chunks[1..], lines[k..]);
    assert lines == lines[..k] + lines[k..];
  }

  /** The invariant across a read that is only buffered. */
  lemma {:induction false} FeedAllHold(buffer: Text, chunks: seq<Bytes>, lines: seq<Text>)
    requires forall i :: 0 <= i < |lines| ==> Sendable(lines[i])
    requires buffer + Ascii.GetString(Concat(chunks)) == Stream(lines)
    requires buffer == [] || buffer[|buffer| - 1] != LF
    requires |chunks| > 0 && !EndsWith(Ascii.GetString(chunks[0]), [LF])
    ensures FeedAll(buffer, chunks) == Fed([], lines)
    decreases |chunks|, 0
  {
    ReadFirst(buffer, chunks, Stream(lines));
    Hold(buffer, chunks[0]);
    FeedAllStream(buffer + Ascii.GetString(chunks[0]), chunks[1..], lines);
  }

  /** However the bytes of a sequence of sendable ASCII lines are cut into
      reads, the reader releases exactly those lines, in order, and is left
      with an empty buffer. */
  lemma FramingDeliversLines(lines: seq<Text>, chunks: seq<Bytes>)
    requires forall i :: 0 <= i < |lines| ==> Sendable(lines[i]) && IsAscii(lines[i])
    requires Concat(chunks) == Ascii.GetBytes(Stream(lines))
    ensures FeedAll([], chunks) == Fed([], lines)
  {
    StreamAscii(lines);
    Ascii.GetStringGetBytes(Stream(lines));
    assert [] + Ascii.GetString(Concat(chunks)) == Stream(lines);
    FeedAllStream([], chunks, lines);
  }

  /** A command that survives the line codec and the framing: an ASCII name
      free of space and '\n', well-formed arguments, and a line that does not
      end in white space. */
  predicate Framable(c: Command) {
    && IsAscii(c.name) && Space !in c.name && LF !in c.name
    && (forall i :: 0 <= i < |c.args| ==> Utf16.WellFormed(c.args[i]))
    && (if |c.args| == 0 then c.name != [] && !IsWhiteSpace(c.name[|c.name| - 1])
        else c.args[|c.args| - 1] != [])
  }

  /** A framable command is written as a line the framing delivers intact. */
  lemma FramableSendable(c: Command)
    requires Framable(c)
    ensures Sendable(Format(c)) && IsAscii(Format(c))
  {
    FormatIsLine(c);
    if |c.args| == 0 {
      FormatNameOnly(c.name);
      assert c == NameOnly(c.name);
    } else {
      FormatLastUnit(c);
    }
  }

  /** The lines a sender writes for a sequence of commands. */
  function Lines(cmds: seq<Command>): (lines: seq<Text>)
    ensures |lines| == |cmds| && forall i :: 0 <= i < |cmds| ==> lines[i] == Format(cmds[i])
  {
    seq(|cmds|, i requires 0 <= i < |cmds| => Format(cmds[i]))
  }

  /** End to end: commands written one per line arrive, however the bytes are
      cut into reads, as the same lines, and each parses back to the command
      that was written. */
  lemma FramingDeliversCommands(cmds: seq<Command>, chunks: seq<Bytes>)
    requires forall i :: 0 <= i < |cmds| ==> Framable(cmds[i])
    requires Concat(chunks) == Ascii.GetBytes(Stream(Lines(cmds)))
    ensures FeedAll([], chunks).buffer == []
    ensures |FeedAll([], chunks).lines| == |cmds|
    ensures forall i :: 0 <= i < |cmds| ==> ParseLine(FeedAll([], chunks).lines[i]) == Ok(cmds[i])
  {
    var lines := Lines(cmds);
    forall i | 0 <= i < |lines| ensures Sendable(lines[i]) && IsAscii(lines[i]) {
      FramableSendable(cmds[i]);
    }
    FramingDeliversLines(lines, chunks);
    forall i | 0 <= i < |cmds| ensures ParseLine(lines[i]) == Ok(cmds[i]) {
      RoundTripWellFormed(cmds[i]);
    }
  }
}
