/** System.Text.Encoding.Unicode: UTF-16 in little-endian byte order, with
    the default replacement fallback that turns every lone surrogate, and an
    odd trailing byte, into U+FFFD. */
module Utf16 {
  import opened Strings
  import opened Base64

  const Replacement: Unit := 0xFFFD

  predicate IsHighSurrogate(u: Unit) { 0xD800 <= u <= 0xDBFF }
  predicate IsLowSurrogate(u: Unit) { 0xDC00 <= u <= 0xDFFF }

  /** Well-formed UTF-16: surrogates come only as high-low pairs. */
  predicate WellFormed(t: Text)
    decreases |t|
  {
    if |t| == 0 then true
    else if IsHighSurrogate(t[0]) then |t| >= 2 && IsLowSurrogate(t[1]) && WellFormed(t[2..])
    else !IsLowSurrogate(t[0]) && WellFormed(t[1..])
  }

  /** The same property stated position by position: every high surrogate is
      followed by a low one and every low surrogate follows a high one. */
  predicate PairedSurrogates(t: Text) {
    && (forall i :: 0 <= i < |t| && IsHighSurrogate(t[i]) ==> i + 1 < |t| && IsLowSurrogate(t[i + 1]))
    && (forall i :: 0 <= i < |t| && IsLowSurrogate(t[i]) ==> i > 0 && IsHighSurrogate(t[i - 1]))
  }

  lemma {:induction false} WellFormedIsPaired(t: Text)
    ensures WellFormed(t) <==> PairedSurrogates(t)
    decreases |t|
  {
    if |t| > 0 {
      if IsHighSurrogate(t[0]) {
        if |t| >= 2 && IsLowSurrogate(t[1]) {
          WellFormedIsPaired(t[2..]);
          PairedShift(t, 2);
        }
      } else if !IsLowSurrogate(t[0]) {
        WellFormedIsPaired(t[1..]);
        PairedShift(t, 1);
      }
    }
  }

  /** Taking off a leading BMP unit (k = 1) or a leading pair (k = 2)
      neither makes nor breaks the pairing of the rest. */
  lemma PairedShift(t: Text, k: nat)
    requires k <= |t|
    requires (k == 1 && !IsHighSurrogate(t[0]) && !IsLowSurrogate(t[0]))
          || (k == 2 && IsHighSurrogate(t[0]) && IsLowSurrogate(t[1]))
    ensures PairedSurrogates(t) <==> PairedSurrogates(t[k..])
  {
    var r := t[k..];
    if PairedSurrogates(t) {
      forall i | 0 <= i < |r| && IsHighSurrogate(r[i]) ensures i + 1 < |r| && IsLowSurrogate(r[i + 1]) {
        assert t[i + k] == r[i];
        if i + 1 < |r| { assert t[i + k + 1] == r[i + 1]; }
      }
      forall i | 0 <= i < |r| && IsLowSurrogate(r[i]) ensures i > 0 && IsHighSurrogate(r[i - 1]) {
        assert t[i + k] == r[i];
        if i > 0 { assert t[i + k - 1] == r[i - 1]; }
      }
    }
    if PairedSurrogates(r) {
      forall i | 0 <= i < |t| && IsHighSurrogate(t[i]) ensures i + 1 < |t| && IsLowSurrogate(t[i + 1]) {
        if i >= k {
          assert r[i - k] == t[i];
          if i + 1 < |t| { assert r[i - k + 1] == t[i + 1]; }
        }
      }
      if k < |t| {
        assert r[0] == t[k];
      }
      forall i | 0 <= i < |t| && IsLowSurrogate(t[i]) ensures i > 0 && IsHighSurrogate(t[i - 1]) {
        if i > k {
          assert r[i - k] == t[i] && r[i - k - 1] == t[i - 1];
        }
      }
    }
  }

  /** The replacement fallback: every lone surrogate becomes U+FFFD. */
  function Scrub(t: Text): (r: Text)
    ensures |r| == |t| && WellFormed(r)
    decreases |t|
  {
    if |t| == 0 then []
    else if IsHighSurrogate(t[0]) && |t| >= 2 && IsLowSurrogate(t[1]) then
      var r := t[..2] + Scrub(t[2..]);
      assert r[2..] == Scrub(t[2..]);
      r
    else
      var r := [if IsHighSurrogate(t[0]) || IsLowSurrogate(t[0]) then Replacement else t[0]] + Scrub(t[1..]);
      assert r[1..] == Scrub(t[1..]);
      r
  }

  /** The fallback changes exactly the strings that are not well formed. */
  lemma {:induction false} ScrubIdentity(t: Text)
    ensures Scrub(t) == t <==> WellFormed(t)
    decreases |t|
  {
    if |t| > 0 {
      if IsHighSurrogate(t[0]) && |t| >= 2 && IsLowSurrogate(t[1]) {
        ScrubIdentity(t[2..]);
        assert t == t[..2] + t[2..];
        if Scrub(t) == t {
          assert Scrub(t)[2..] == Scrub(t[2..]);
        }
      } else {
        ScrubIdentity(t[1..]);
        assert t == [t[0]] + t[1..];
        if Scrub(t) == t {
          assert Scrub(t)[1..] == Scrub(t[1..]);
        }
      }
    }
  }

  lemma ScrubIdempotent(t: Text)
    ensures Scrub(Scrub(t)) == Scrub(t)
  {
    ScrubIdentity(Scrub(t));
  }

  /** The code units of t, two bytes each, low byte first. */
  function LittleEndian(t: Text): (b: seq<Byte>)
    ensures |b| == 2 * |t|
    decreases |t|
  {
    if |t| == 0 then []
    else [(t[0] as int % 0x100) as Byte, (t[0] as int / 0x100) as Byte] + LittleEndian(t[1..])
  }

  /** Bytes read back as code units, low byte first; an odd trailing byte
      becomes U+FFFD. */
  function Units(b: seq<Byte>): (t: Text)
    ensures |t| == (|b| + 1) / 2
    decreases |b|
  {
    if |b| == 0 then []
    else if |b| == 1 then [Replacement]
    else [(b[0] as int + b[1] as int * 0x100) as Unit] + Units(b[2..])
  }

  lemma {:induction false} UnitsLittleEndian(t: Text)
    ensures Units(LittleEndian(t)) == t
    decreases |t|
  {
    if |t| > 0 {
      UnitsLittleEndian(t[1..]);
      var b := LittleEndian(t);
      assert b[2..] == LittleEndian(t[1..]);
      assert t == [t[0]] + t[1..];
    }
  }

  /** Encoding.Unicode.GetBytes. */
  function GetBytes(t: Text): (b: seq<Byte>)
    ensures |b| == 2 * |t|
  {
    LittleEndian(Scrub(t))
  }

  /** Encoding.Unicode.GetString. */
  function GetString(b: seq<Byte>): (t: Text)
    ensures WellFormed(t)
  {
    Scrub(Units(b))
  }

  /** Encoding a string and decoding the bytes gives the string with its lone
      surrogates replaced; a well-formed string comes back unchanged. */
  lemma GetStringGetBytes(t: Text)
    ensures GetString(GetBytes(t)) == Scrub(t)
    ensures WellFormed(t) ==> GetString(GetBytes(t)) == t
  {
    UnitsLittleEndian(Scrub(t));
    ScrubIdempotent(t);
    ScrubIdentity(t);
  }
}
