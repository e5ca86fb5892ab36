/** MultiplayerConstants.TcpEncoding, System.Text.Encoding.ASCII: a byte above
    0x7F reads as '?'; a unit above 0x7F is written as '?', a surrogate pair
    as a single '?'. */
module Ascii {
  import opened Strings
  import opened Base64
  import Utf16

  const Question: Unit := 0x3F

  /** Encoding.ASCII.GetString: each byte read on its own. */
  function GetString(b: seq<Byte>): (t: Text)
    ensures |t| == |b| && IsAscii(t)
    decreases |b|
  {
    if |b| == 0 then []
    else [if b[0] < 0x80 then b[0] as int as Unit else Question] + GetString(b[1..])
  }

  /** Encoding.ASCII.GetBytes: an ASCII unit is written as its byte; anything
      else goes to the replacement fallback, which is handed a whole
      high-low surrogate pair at once and writes one '?' for it, and one '?'
      for every other unit outside ASCII. */
  function GetBytes(t: Text): (b: seq<Byte>)
    ensures |b| <= |t|
    ensures forall i :: 0 <= i < |b| ==> b[i] < 0x80
    ensures IsAscii(t) ==> |b| == |t| && forall i :: 0 <= i < |t| ==> b[i] as int == t[i] as int
    decreases |t|
  {
    if |t| == 0 then []
    else if |t| >= 2 && Utf16.IsHighSurrogate(t[0]) && Utf16.IsLowSurrogate(t[1]) then
      [Question as int as Byte] + GetBytes(t[2..])
    else [if t[0] < 0x80 then t[0] as int as Byte else Question as int as Byte] + GetBytes(t[1..])
  }

  /** A surrogate pair, one character outside the BMP, is written as a
      single '?', and a lone surrogate as a '?' of its own. */
  lemma GetBytesSurrogates()
    ensures GetBytes([0xD83D, 0xDE00]) == [0x3F]
    ensures GetBytes([0xD83D]) == [0x3F]
    ensures GetBytes([0xDE00, 0xD83D]) == [0x3F, 0x3F]
  {
    var pair: Text := [0xD83D, 0xDE00];
    var high: Text := [0xD83D];
    var swapped: Text := [0xDE00, 0xD83D];
    assert pair[2..] == [];
    assert high[1..] == [];
    assert swapped[1..] == high;
  }

  /** Reading back what was written gives an ASCII string unchanged. */
  lemma {:induction false} GetStringGetBytes(t: Text)
    requires IsAscii(t)
    ensures GetString(GetBytes(t)) == t
    decreases |t|
  {
    if |t| > 0 {
      assert t[0] < 0x80;
      GetStringGetBytes(t[1..]);
      var b := GetBytes(t);
      assert b[1..] == GetBytes(t[1..]);
      assert t == [t[0]] + t[1..];
    }
  }

  /** Decoding a stream chunk by chunk is decoding it whole: a byte boundary
      is always a character boundary. */
  lemma {:induction false} GetStringAppend(a: seq<Byte>, b: seq<Byte>)
    ensures GetString(a + b) == GetString(a) + GetString(b)
    decreases |a|
  {
    if |a| > 0 {
      GetStringAppend(a[1..], b);
      assert (a + b)[1..] == a[1..] + b;
      assert (a + b)[0] == a[0];
    } else {
      assert a + b == b;
    }
  }
}
