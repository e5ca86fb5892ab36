/** Base64 with the basic alphabet of section 4 of RFC 4648, as used by
    System.Convert.ToBase64String and System.Convert.FromBase64String.
    Decoding is strict: no white space, '=' only as padding of the last
    quantum. */
module Base64 {
  import opened Outcomes
  import opened Strings

  newtype Byte = x: int | 0 <= x < 0x100

  const Pad: Unit := 0x3D  // '='

  /** The 64 characters of the basic alphabet: A-Z, a-z, 0-9, '+', '/'. */
  predicate IsAlphabet(u: Unit) {
    || 0x41 <= u <= 0x5A
    || 0x61 <= u <= 0x7A
    || 0x30 <= u <= 0x39
    || u == 0x2B
    || u == 0x2F
  }

  /** The alphabet character encoding the 6-bit value v (RFC 4648, Table 1). */
  function Char(v: nat): (u: Unit)
    requires v < 64
    ensures IsAlphabet(u)
  {
    if v < 26 then (0x41 + v) as Unit
    else if v < 52 then (0x61 + (v - 26)) as Unit
    else if v < 62 then (0x30 + (v - 52)) as Unit
    else if v == 62 then 0x2B
    else 0x2F
  }

  /** The 6-bit value of an alphabet character: the inverse of Char. */
  function Value(u: Unit): (v: nat)
    requires IsAlphabet(u)
    ensures v < 64 && Char(v) == u
  {
    if 0x41 <= u <= 0x5A then (u - 0x41) as nat
    else if 0x61 <= u <= 0x7A then (u - 0x61) as nat + 26
    else if 0x30 <= u <= 0x39 then (u - 0x30) as nat + 52
    else if u == 0x2B then 62
    else 63
  }

  lemma ValueChar(v: nat)
    requires v < 64
    ensures Value(Char(v)) == v
  {
  }

  /** Three bytes as four characters. */
  function EncodeQuantum(b0: Byte, b1: Byte, b2: Byte): Text {
    [Char(b0 as nat / 4), Char(b0 as nat % 4 * 16 + b1 as nat / 16),
     Char(b1 as nat % 16 * 4 + b2 as nat / 64), Char(b2 as nat % 64)]
  }

  /** One leftover byte as two characters and two '='. */
  function EncodeOne(b0: Byte): Text {
    [Char(b0 as nat / 4), Char(b0 as nat % 4 * 16), Pad, Pad]
  }

  /** Two leftover bytes as three characters and one '='. */
  function EncodeTwo(b0: Byte, b1: Byte): Text {
    [Char(b0 as nat / 4), Char(b0 as nat % 4 * 16 + b1 as nat / 16), Char(b1 as nat % 16 * 4), Pad]
  }

  /** System.Convert.ToBase64String. */
  function Encode(b: seq<Byte>): (r: Text)
    ensures |r| % 4 == 0 && |r| / 4 == (|b| + 2) / 3
    ensures forall i :: 0 <= i < |r| ==> IsAlphabet(r[i]) || r[i] == Pad
    decreases |b|
  {
    if |b| == 0 then []
    else if |b| == 1 then EncodeOne(b[0])
    else if |b| == 2 then EncodeTwo(b[0], b[1])
    else
      var r := EncodeQuantum(b[0], b[1], b[2]) + Encode(b[3..]);
      r
  }

  /** The number of '=' that end s (at most two count). */
  function PadCount(s: Text): nat {
    if |s| >= 1 && s[|s| - 1] == Pad then
      if |s| >= 2 && s[|s| - 2] == Pad then 2 else 1
    else 0
  }

  /** Well-formed input for the strict decoder: whole quanta, alphabet
      characters only, except for at most two '=' at the very end. */
  predicate IsBase64(s: Text) {
    |s| % 4 == 0 && forall i :: 0 <= i < |s| - PadCount(s) ==> IsAlphabet(s[i])
  }

  /** Four alphabet characters as three bytes. */
  function DecodeQuantum(c0: Unit, c1: Unit, c2: Unit, c3: Unit): Result<seq<Byte>> {
    if IsAlphabet(c0) && IsAlphabet(c1) && IsAlphabet(c2) && IsAlphabet(c3) then
      var v0, v1, v2, v3 := Value(c0), Value(c1), Value(c2), Value(c3);
      Ok([(v0 * 4 + v1 / 16) as Byte, (v1 % 16 * 16 + v2 / 4) as Byte, (v2 % 4 * 64 + v3) as Byte])
    else Err(FormatError)
  }

  /** The last quantum, which may end in one or two '='.  The bits that the
      padding leaves unused are not checked. */
  function DecodeFinal(c0: Unit, c1: Unit, c2: Unit, c3: Unit): Result<seq<Byte>> {
    if c3 != Pad then DecodeQuantum(c0, c1, c2, c3)
    else if c2 == Pad then
      if IsAlphabet(c0) && IsAlphabet(c1) then
        Ok([(Value(c0) * 4 + Value(c1) / 16) as Byte])
      else Err(FormatError)
    else if IsAlphabet(c0) && IsAlphabet(c1) && IsAlphabet(c2) then
      var v0, v1, v2 := Value(c0), Value(c1), Value(c2);
      Ok([(v0 * 4 + v1 / 16) as Byte, (v1 % 16 * 16 + v2 / 4) as Byte])
    else Err(FormatError)
  }

  /** System.Convert.FromBase64String, strict. */
  function Decode(s: Text): (r: Result<seq<Byte>>)
    ensures r.Err? ==> r.fault == FormatError
    decreases |s|
  {
    if |s| % 4 != 0 then Err(FormatError)
    else if |s| == 0 then Ok([])
    else if |s| == 4 then DecodeFinal(s[0], s[1], s[2], s[3])
    else
      match DecodeQuantum(s[0], s[1], s[2], s[3])
      case Err(f) => Err(f)
      case Ok(q) =>
        match Decode(s[4..])
        case Err(f) => Err(f)
        case Ok(rest) => Ok(q + rest)
  }

  /** A quantum of four alphabet characters in front of well-formed input
      keeps it well formed and does not change its padding. */
  lemma PrependQuantum(q: Text, t: Text)
    requires |q| == 4 && IsAlphabet(q[0]) && IsAlphabet(q[1]) && IsAlphabet(q[2]) && IsAlphabet(q[3])
    requires IsBase64(t)
    ensures PadCount(q + t) == PadCount(t) && IsBase64(q + t)
  {
    var r := q + t;
    if |t| > 0 {
      assert r[|r| - 1] == t[|t| - 1] && r[|r| - 2] == t[|t| - 2];
    }
    forall i | 0 <= i < |r| - PadCount(r) ensures IsAlphabet(r[i]) {
      if i >= 4 { assert r[i] == t[i - 4]; }
    }
  }

  lemma ModThree(n: nat)
    requires n >= 3
    ensures n % 3 == (n - 3) % 3
  {
  }

  /** The padding of an encoding: none for whole triples, otherwise two '='
      after one leftover byte and one '=' after two. */
  lemma {:induction false} EncodePadding(b: seq<Byte>)
    ensures PadCount(Encode(b)) == (3 - |b| % 3) % 3
    ensures IsBase64(Encode(b))
    decreases |b|
  {
    if |b| == 1 {
      OnePadding(b[0]);
    } else if |b| == 2 {
      TwoPadding(b[0], b[1]);
    } else if |b| >= 3 {
      ModThree(|b|);
      EncodePadding(b[3..]);
      PrependQuantum(EncodeQuantum(b[0], b[1], b[2]), Encode(b[3..]));
    }
  }

  lemma OnePadding(b0: Byte)
    ensures PadCount(EncodeOne(b0)) == 2 && IsBase64(EncodeOne(b0))
  {
  }

  lemma TwoPadding(b0: Byte, b1: Byte)
    ensures PadCount(EncodeTwo(b0, b1)) == 1 && IsBase64(EncodeTwo(b0, b1))
  {
  }

  /** The two halves of a byte split at bit k are recovered by / and %. */
  lemma Halves16(hi: nat, lo: nat)
    requires lo < 16
    ensures (hi * 16 + lo) / 16 == hi && (hi * 16 + lo) % 16 == lo
  {
  }

  lemma Halves4(hi: nat, lo: nat)
    requires lo < 4
    ensures (hi * 4 + lo) / 4 == hi && (hi * 4 + lo) % 4 == lo
  {
  }

  lemma DecodeEncodeQuantum(b0: Byte, b1: Byte, b2: Byte)
    ensures var q := EncodeQuantum(b0, b1, b2);
            DecodeQuantum(q[0], q[1], q[2], q[3]) == Ok([b0, b1, b2])
  {
    var n0, n1, n2 := b0 as nat, b1 as nat, b2 as nat;
    var v0, v1, v2, v3 := n0 / 4, n0 % 4 * 16 + n1 / 16, n1 % 16 * 4 + n2 / 64, n2 % 64;
    ValueChar(v0); ValueChar(v1); ValueChar(v2); ValueChar(v3);
    Halves16(n0 % 4, n1 / 16);
    Halves4(n1 % 16, n2 / 64);
    assert v0 * 4 + v1 / 16 == n0;
    assert v1 % 16 * 16 + v2 / 4 == n1;
    assert v2 % 4 * 64 + v3 == n2;
  }

  lemma DecodeEncodeOne(b0: Byte)
    ensures var q := EncodeOne(b0);
            DecodeFinal(q[0], q[1], q[2], q[3]) == Ok([b0])
  {
    var n0 := b0 as nat;
    ValueChar(n0 / 4);
    ValueChar(n0 % 4 * 16);
    Halves16(n0 % 4, 0);
    assert n0 / 4 * 4 + (n0 % 4 * 16) / 16 == n0;
  }

  lemma DecodeEncodeTwo(b0: Byte, b1: Byte)
    ensures var q := EncodeTwo(b0, b1);
            DecodeFinal(q[0], q[1], q[2], q[3]) == Ok([b0, b1])
  {
    var n0, n1 := b0 as nat, b1 as nat;
    var v0, v1, v2 := n0 / 4, n0 % 4 * 16 + n1 / 16, n1 % 16 * 4;
    ValueChar(v0); ValueChar(v1); ValueChar(v2);
    Halves16(n0 % 4, n1 / 16);
    Halves4(n1 % 16, 0);
    assert v0 * 4 + v1 / 16 == n0;
    assert v1 % 16 * 16 + v2 / 4 == n1;
  }

  /** Decoding an encoding gives back the bytes. */
  lemma {:induction false} DecodeEncode(b: seq<Byte>)
    ensures Decode(Encode(b)) == Ok(b)
    decreases |b|
  {
    var r := Encode(b);
    if |b| == 1 {
      DecodeEncodeOne(b[0]);
      assert b == [b[0]];
    } else if |b| == 2 {
      DecodeEncodeTwo(b[0], b[1]);
      assert b == [b[0], b[1]];
    } else if |b| >= 3 {
      assert b == [b[0], b[1], b[2]] + b[3..];
      DecodeEncodeQuantum(b[0], b[1], b[2]);
      var q := EncodeQuantum(b[0], b[1], b[2]);
      var t := Encode(b[3..]);
      assert r == q + t;
      if |b| > 3 {
        DecodeEncode(b[3..]);
        assert r[0] == q[0] && r[1] == q[1] && r[2] == q[2] && r[3] == q[3];
        assert r[4..] == t;
      } else {
        assert b == [b[0], b[1], b[2]];
        assert r == q && q[3] != Pad;
        assert Decode(r) == DecodeQuantum(q[0], q[1], q[2], q[3]);
      }
    }
  }

  lemma DecodeQuantumOk(c0: Unit, c1: Unit, c2: Unit, c3: Unit)
    ensures DecodeQuantum(c0, c1, c2, c3).Ok? <==>
            IsAlphabet(c0) && IsAlphabet(c1) && IsAlphabet(c2) && IsAlphabet(c3)
  {
  }

  /** The strict decoder accepts exactly the well-formed inputs, and yields
      three bytes per quantum less one per '='. */
  lemma {:induction false} DecodeAccepts(s: Text)
    ensures Decode(s).Ok? <==> IsBase64(s)
    ensures Decode(s).Ok? ==> |Decode(s).value| == |s| / 4 * 3 - PadCount(s)
    decreases |s|
  {
    if |s| % 4 == 0 && |s| > 4 {
      var t := s[4..];
      DecodeAccepts(t);
      assert PadCount(s) == PadCount(t) by {
        assert s[|s| - 1] == t[|t| - 1] && s[|s| - 2] == t[|t| - 2];
      }
      if IsBase64(s) {
        assert IsAlphabet(s[0]) && IsAlphabet(s[1]) && IsAlphabet(s[2]) && IsAlphabet(s[3]);
        forall i | 0 <= i < |t| - PadCount(t) ensures IsAlphabet(t[i]) {
          assert t[i] == s[i + 4];
        }
      }
      if IsAlphabet(s[0]) && IsAlphabet(s[1]) && IsAlphabet(s[2]) && IsAlphabet(s[3]) && IsBase64(t) {
        forall i | 0 <= i < |s| - PadCount(s) ensures IsAlphabet(s[i]) {
          if i >= 4 { assert s[i] == t[i - 4]; }
        }
      }
    }
  }

  /** Input that is not whole quanta, or that holds a character outside the
      alphabet other than padding '=', is rejected. */
  lemma DecodeRejects(s: Text)
    requires |s| % 4 != 0 || exists i :: 0 <= i < |s| && !IsAlphabet(s[i]) && s[i] != Pad
    ensures Decode(s) == Err(FormatError)
  {
    DecodeAccepts(s);
  }

  lemma EncodeEmpty()
    ensures Encode([]) == [] && Decode([]) == Ok([])
  {
  }
}
