/** Runtime/Base64Helper.cs: how a command argument is made safe for the
    line protocol, as base64 over its UTF-16LE bytes. */
module Base64Helper {
  import opened Outcomes
  import opened Strings
  import Base64
  import Utf16

  /** Base64Helper.Encode: ToBase64String(MessageEncoding.GetBytes(text)),
      where MessageEncoding is Encoding.Unicode. */
  function Encode(text: Text): (r: Text)
    ensures |r| % 4 == 0 && |r| / 4 == (2 * |text| + 2) / 3
    ensures Base64.IsBase64(r)
    ensures forall i :: 0 <= i < |r| ==> Base64.IsAlphabet(r[i]) || r[i] == Base64.Pad
  {
    Base64.EncodePadding(Utf16.GetBytes(text));
    Base64.Encode(Utf16.GetBytes(text))
  }

  /** Base64Helper.Decode: MessageEncoding.GetString(FromBase64String(s)).
      FromBase64String's FormatException is the only failure. */
  function Decode(s: Text): (r: Result<Text>)
    ensures r.Ok? <==> Base64.IsBase64(s)
    ensures r.Err? ==> r.fault == FormatError
    ensures r.Ok? ==> Utf16.WellFormed(r.value)
  {
    Base64.DecodeAccepts(s);
    match Base64.Decode(s)
    case Err(f) => Err(f)
    case Ok(bytes) => Ok(Utf16.GetString(bytes))
  }

  /** Every character of an encoding is ASCII, and none is a space or a
      line feed, so an encoded argument is one space-free token. */
  lemma EncodeIsToken(text: Text)
    ensures IsAscii(Encode(text))
    ensures Space !in Encode(text) && LF !in Encode(text)
  {
  }

  /** Decode undoes Encode, up to the replacement of lone surrogates. */
  lemma DecodeEncode(text: Text)
    ensures Decode(Encode(text)) == Ok(Utf16.Scrub(text))
  {
    Base64.DecodeEncode(Utf16.GetBytes(text));
    Utf16.GetStringGetBytes(text);
  }

  /** For well-formed UTF-16 the round trip is exact. */
  lemma DecodeEncodeWellFormed(text: Text)
    requires Utf16.WellFormed(text)
    ensures Decode(Encode(text)) == Ok(text)
  {
    DecodeEncode(text);
    Utf16.ScrubIdentity(text);
  }

  lemma EncodeDecodeEmpty()
    ensures Encode([]) == [] && Decode([]) == Ok([])
  {
  }

  /** Decode throws FormatException on a length that is not a multiple of
      four and on a character outside the alphabet other than '='. */
  lemma DecodeRejects(s: Text)
    requires |s| % 4 != 0 || exists i :: 0 <= i < |s| && !Base64.IsAlphabet(s[i]) && s[i] != Base64.Pad
    ensures Decode(s) == Err(FormatError)
  {
    Base64.DecodeRejects(s);
  }

  /** Different well-formed arguments have different encodings. */
  lemma EncodeInjective(a: Text, b: Text)
    requires Utf16.WellFormed(a) && Utf16.WellFormed(b) && a != b
    ensures Encode(a) != Encode(b)
  {
    DecodeEncodeWellFormed(a);
    DecodeEncodeWellFormed(b);
  }
}
