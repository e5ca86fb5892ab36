/** Base64Helper.cs at the repository root: a second copy of the helper that
    names Encoding.Unicode directly instead of through a MessageEncoding
    field. */
module RootBase64Helper {
  import opened Outcomes
  import opened Strings
  import Base64
  import Utf16
  import Base64Helper

  /** Base64Helper.Encode: ToBase64String(Encoding.Unicode.GetBytes(text)). */
  function Encode(text: Text): (r: Text)
    ensures Base64.IsBase64(r)
    ensures Space !in r && LF !in r
  {
    Base64.EncodePadding(Utf16.GetBytes(text));
    Base64.Encode(Utf16.GetBytes(text))
  }

  /** Base64Helper.Decode: Encoding.Unicode.GetString(FromBase64String(s)). */
  function Decode(s: Text): (r: Result<Text>)
    ensures r.Ok? <==> Base64.IsBase64(s)
  {
    Base64.DecodeAccepts(s);
    match Base64.Decode(s)
    case Err(f) => Err(f)
    case Ok(bytes) => Ok(Utf16.GetString(bytes))
  }

  /** The root copy computes what the Runtime copy computes. */
  lemma SameAsRuntime(text: Text, s: Text)
    ensures Encode(text) == Base64Helper.Encode(text)
    ensures Decode(s) == Base64Helper.Decode(s)
  {
  }

  /** The round trip of the root copy, for well-formed UTF-16. */
  lemma DecodeEncodeWellFormed(text: Text)
    requires Utf16.WellFormed(text)
    ensures Decode(Encode(text)) == Ok(text)
  {
    Base64Helper.DecodeEncodeWellFormed(text);
  }

  /** The root copy rejects malformed base64 as the Runtime copy does. */
  lemma DecodeRejects(s: Text)
    requires |s| % 4 != 0 || exists i :: 0 <= i < |s| && !Base64.IsAlphabet(s[i]) && s[i] != Base64.Pad
    ensures Decode(s) == Err(FormatError)
  {
    Base64Helper.DecodeRejects(s);
  }
}
