/** .NET strings as sequences of UTF-16 code units, and the handful of
    System.String / System.UInt32 operations the protocol relies on:
    TrimEnd(), Split(char), EndsWith, uint.ToString() and uint.Parse. */
module Strings {
  import opened Outcomes

  /** One UTF-16 code unit, the element type of a .NET string. */
  newtype Unit = x: int | 0 <= x < 0x1_0000

  type Text = seq<Unit>

  const Space: Unit := 0x20
  const LF: Unit := 0x0A

  /** The largest value of a .NET uint. */
  const UInt32Max: nat := 0xFFFF_FFFF

  /** The code unit of a character of the Basic Multilingual Plane. */
  function Code(c: char): Unit {
    if c as int < 0x1_0000 then c as int as Unit else 0xFFFD
  }

  /** A string literal written in Dafny, as a sequence of code units. */
  function Lit(s: string): (t: Text)
    ensures |t| == |s|
    ensures forall i :: 0 <= i < |s| ==> t[i] == Code(s[i])
  {
    seq(|s|, i requires 0 <= i < |s| => Code(s[i]))
  }

  /** char.IsWhiteSpace: the Unicode categories Zs, Zl and Zp, plus
      U+0009 to U+000D and U+0085. */
  predicate IsWhiteSpace(u: Unit) {
    || 0x09 <= u <= 0x0D
    || u == 0x20 || u == 0x85 || u == 0xA0 || u == 0x1680
    || 0x2000 <= u <= 0x200A
    || u == 0x2028 || u == 0x2029 || u == 0x202F || u == 0x205F || u == 0x3000
  }

  predicate IsAscii(t: Text) {
    forall i :: 0 <= i < |t| ==> t[i] < 0x80
  }

  lemma AsciiAppend(a: Text, b: Text)
    requires IsAscii(a) && IsAscii(b)
    ensures IsAscii(a + b)
  {
    forall k | 0 <= k < |a + b| ensures (a + b)[k] < 0x80 {
      if k >= |a| { assert (a + b)[k] == b[k - |a|]; }
    }
  }

  /** string.TrimEnd(): drops every trailing white-space unit. */
  function TrimEnd(s: Text): (r: Text)
    ensures |r| <= |s| && r == s[..|r|]
    ensures r == [] || !IsWhiteSpace(r[|r| - 1])
    ensures forall i :: |r| <= i < |s| ==> IsWhiteSpace(s[i])
    decreases |s|
  {
    if |s| > 0 && IsWhiteSpace(s[|s| - 1]) then TrimEnd(s[..|s| - 1]) else s
  }

  /** string.EndsWith(string) with an ordinal comparison. */
  predicate EndsWith(s: Text, suffix: Text) {
    |suffix| <= |s| && s[|s| - |suffix|..] == suffix
  }

  /** string.Split(char): the pieces between occurrences of sep, empty
      pieces included; there is always at least one piece. */
  function Split(s: Text, sep: Unit): (parts: seq<Text>)
    ensures |parts| >= 1
    ensures forall i :: 0 <= i < |parts| ==> sep !in parts[i]
    decreases |s|
  {
    if |s| == 0 then [[]]
    else
      var rest := Split(s[1..], sep);
      if s[0] == sep then [[]] + rest
      else [[s[0]] + rest[0]] + rest[1..]
  }

  /** string.Join(sep, parts), the inverse of Split. */
  function Join(parts: seq<Text>, sep: Unit): Text
    decreases |parts|
  {
    if |parts| == 0 then []
    else if |parts| == 1 then parts[0]
    else parts[0] + [sep] + Join(parts[1..], sep)
  }

  /** One more piece adds one separator and the piece at the end. */
  lemma {:induction false} JoinSnoc(parts: seq<Text>, sep: Unit, x: Text)
    requires |parts| >= 1
    ensures Join(parts + [x], sep) == Join(parts, sep) + [sep] + x
    decreases |parts|
  {
    if |parts| > 1 {
      JoinSnoc(parts[1..], sep, x);
      assert (parts + [x])[1..] == parts[1..] + [x];
    }
  }

  /** Splitting and joining back gives the original string. */
  lemma {:induction false} JoinSplit(s: Text, sep: Unit)
    ensures Join(Split(s, sep), sep) == s
    decreases |s|
  {
    if |s| > 0 {
      var rest := Split(s[1..], sep);
      JoinSplit(s[1..], sep);
      if s[0] == sep {
        assert Split(s, sep) == [[]] + rest;
        assert s == [sep] + s[1..];
      } else if |rest| == 1 {
        assert Split(s, sep) == [[s[0]] + rest[0]];
        assert s == [s[0]] + s[1..];
      } else {
        var parts := Split(s, sep);
        assert parts == [[s[0]] + rest[0]] + rest[1..];
        assert parts[1..] == rest[1..];
        assert Join(rest, sep) == rest[0] + [sep] + Join(rest[1..], sep);
        assert s == [s[0]] + s[1..];
      }
    }
  }

  /** A string without the separator is a single piece. */
  lemma {:induction false} SplitNoSep(s: Text, sep: Unit)
    requires sep !in s
    ensures Split(s, sep) == [s]
    decreases |s|
  {
    if |s| > 0 {
      SplitNoSep(s[1..], sep);
      assert s == [s[0]] + s[1..];
    }
  }

  /** The first piece is everything before the first separator. */
  lemma {:induction false} SplitAfterPiece(p: Text, sep: Unit, t: Text)
    requires sep !in p
    ensures Split(p + [sep] + t, sep) == [p] + Split(t, sep)
    decreases |p|
  {
    if |p| == 0 {
      assert p + [sep] + t == [sep] + t;
      assert ([sep] + t)[1..] == t;
    } else {
      var s := p + [sep] + t;
      assert s[1..] == p[1..] + [sep] + t;
      SplitAfterPiece(p[1..], sep, t);
      assert [p[0]] + p[1..] == p;
    }
  }

  /** Joining pieces free of the separator and splitting gives them back. */
  lemma {:induction false} SplitJoin(parts: seq<Text>, sep: Unit)
    requires |parts| >= 1
    requires forall i :: 0 <= i < |parts| ==> sep !in parts[i]
    ensures Split(Join(parts, sep), sep) == parts
    decreases |parts|
  {
    if |parts| == 1 {
      SplitNoSep(parts[0], sep);
    } else {
      SplitJoin(parts[1..], sep);
      SplitAfterPiece(parts[0], sep, Join(parts[1..], sep));
    }
  }

  /** The first piece of a split is the prefix before the first separator. */
  lemma SplitHead(s: Text, sep: Unit)
    ensures var p := Split(s, sep)[0];
            sep !in p && (p == s || (|p| < |s| && s[..|p| + 1] == p + [sep]))
  {
    var parts := Split(s, sep);
    JoinSplit(s, sep);
    if |parts| > 1 {
      assert s == parts[0] + [sep] + Join(parts[1..], sep);
      assert s[..|parts[0]| + 1] == parts[0] + [sep];
    }
  }

  predicate IsDigit(u: Unit) { 0x30 <= u <= 0x39 }

  /** uint.ToString(): the decimal digits of n, most significant first. */
  function ToDecimal(n: nat): (t: Text)
    ensures |t| >= 1 && forall i :: 0 <= i < |t| ==> IsDigit(t[i])
    decreases n
  {
    if n < 10 then [(0x30 + n) as Unit]
    else ToDecimal(n / 10) + [(0x30 + n % 10) as Unit]
  }

  /** The number a nonempty string of decimal digits denotes. */
  function DigitsValue(t: Text): nat
    requires forall i :: 0 <= i < |t| ==> IsDigit(t[i])
    decreases |t|
  {
    if |t| == 0 then 0
    else
      assert IsDigit(t[|t| - 1]);
      DigitsValue(t[..|t| - 1]) * 10 + (t[|t| - 1] as int - 0x30)
  }

  /** uint.Parse restricted to plain decimal digits: FormatException for an
      empty or non-numeric string, OverflowException above UInt32Max. */
  function ParseUInt(t: Text): (r: Result<nat>)
    ensures r.Ok? ==> r.value <= UInt32Max
    ensures r.Err? <==> |t| == 0 || (exists i :: 0 <= i < |t| && !IsDigit(t[i]))
                        || DigitsValue(t) > UInt32Max
  {
    if |t| == 0 || exists i :: 0 <= i < |t| && !IsDigit(t[i]) then Err(FormatError)
    else if DigitsValue(t) > UInt32Max then Err(OverflowError)
    else Ok(DigitsValue(t))
  }

  lemma {:induction false} DigitsValueToDecimal(n: nat)
    ensures DigitsValue(ToDecimal(n)) == n
    decreases n
  {
    if n >= 10 {
      DigitsValueToDecimal(n / 10);
      var t := ToDecimal(n);
      assert t[..|t| - 1] == ToDecimal(n / 10);
    }
  }

  /** uint.Parse(id.ToString()) == id for every uint. */
  lemma ParseUIntToDecimal(n: nat)
    requires n <= UInt32Max
    ensures ParseUInt(ToDecimal(n)) == Ok(n)
  {
    DigitsValueToDecimal(n);
  }

  /** Two different uints have different decimal forms. */
  lemma ToDecimalInjective(m: nat, n: nat)
    requires m != n
    ensures ToDecimal(m) != ToDecimal(n)
  {
    DigitsValueToDecimal(m);
    DigitsValueToDecimal(n);
  }
}
