/** Byte-string helpers used by the controller: decimal digits, the decimal
    rendering of a number, hexadecimal digits, and the Arduino String search
    and split operations the parsers are built from. */
module Text {
  import opened Layout

  const CHAR_0: byte := 48
  const CHAR_9: byte := 57
  const COLON: byte := 58
  const CHAR_C: byte := 67
  const CHAR_O: byte := 79
  const CR: byte := 13

  predicate IsDigit(b: byte)
  {
    CHAR_0 <= b <= CHAR_9
  }

  predicate AllDigits(s: seq<byte>)
  {
    forall i :: 0 <= i < |s| ==> IsDigit(s[i])
  }

  /** The number a string of decimal digits denotes. */
  function DigitsValue(s: seq<byte>): nat
    requires AllDigits(s)
  {
    if s == [] then 0 else DigitsValue(s[..|s| - 1]) * 10 + (s[|s| - 1] - CHAR_0) as nat
  }

  /** The decimal rendering of n, as String's += of a number produces it. */
  function DecimalString(n: nat): (r: seq<byte>)
    ensures |r| >= 1 && AllDigits(r)
  {
    if n < 10 then [(n + CHAR_0 as nat) as byte]
    else DecimalString(n / 10) + [(n % 10 + CHAR_0 as nat) as byte]
  }

  /** Reading back the decimal rendering of n gives n. */
  lemma {:induction false} DecimalRoundTrip(n: nat)
    ensures DigitsValue(DecimalString(n)) == n
  {
    if n >= 10 {
      DecimalRoundTrip(n / 10);
      var d := DecimalString(n);
      assert d[..|d| - 1] == DecimalString(n / 10);
    }
  }

  /** The longest prefix of s made of decimal digits. */
  function LeadingDigits(s: seq<byte>): (r: seq<byte>)
    ensures AllDigits(r) && r <= s
    ensures |r| < |s| ==> !IsDigit(s[|r|])
  {
    if s == [] || !IsDigit(s[0]) then [] else [s[0]] + LeadingDigits(s[1..])
  }

  /** String::toInt on the digits the controller produces: the value of the leading digits. */
  function ToInt(s: seq<byte>): nat
  {
    DigitsValue(LeadingDigits(s))
  }

  /** A decimal rendering followed by a non-digit reads back as its number. */
  lemma {:induction false} ToIntOfDecimal(n: nat, rest: seq<byte>)
    requires rest == [] || !IsDigit(rest[0])
    ensures ToInt(DecimalString(n) + rest) == n
  {
    LeadingDigitsOf(DecimalString(n), rest);
    DecimalRoundTrip(n);
  }

  /** toInt reads a decimal rendering back as its number. */
  lemma ToIntDecimal(n: nat)
    ensures ToInt(DecimalString(n)) == n
  {
    ToIntOfDecimal(n, []);
    assert DecimalString(n) + [] == DecimalString(n);
  }

  /** The same, truncated to a byte, for a number that fits in one. */
  lemma ToIntDecimalByte(v: nat)
    requires v < 256
    ensures ToInt(DecimalString(v)) % 256 == v
  {
    ToIntDecimal(v);
  }

  lemma {:induction false} LeadingDigitsOf(d: seq<byte>, rest: seq<byte>)
    requires AllDigits(d) && (rest == [] || !IsDigit(rest[0]))
    ensures LeadingDigits(d + rest) == d
  {
    if d != [] {
      assert (d + rest)[1..] == d[1..] + rest;
      LeadingDigitsOf(d[1..], rest);
    } else {
      assert d + rest == rest;
    }
  }

  predicate IsHexDigit(b: byte)
  {
    IsDigit(b) || (65 <= b <= 70) || (97 <= b <= 102)
  }

  function HexDigitValue(b: byte): (v: nat)
    requires IsHexDigit(b)
    ensures v < 16
  {
    if IsDigit(b) then (b - CHAR_0) as nat
    else if b <= 70 then (b - 55) as nat
    else (b - 87) as nat
  }

  /** The longest prefix of s made of hexadecimal digits. */
  function LeadingHex(s: seq<byte>): (r: seq<byte>)
    ensures r <= s && forall i :: 0 <= i < |r| ==> IsHexDigit(r[i])
  {
    if s == [] || !IsHexDigit(s[0]) then [] else [s[0]] + LeadingHex(s[1..])
  }

  function HexDigitsValue(s: seq<byte>): nat
    requires forall i :: 0 <= i < |s| ==> IsHexDigit(s[i])
  {
    if s == [] then 0 else HexDigitsValue(s[..|s| - 1]) * 16 + HexDigitValue(s[|s| - 1])
  }

  /** strtol(s, 0, 16) on the tokens the scanner sends: the value of the leading hex digits. */
  function HexToLong(s: seq<byte>): nat
  {
    HexDigitsValue(LeadingHex(s))
  }

  /** The scan behind String::indexOf from position k on: the first
      position at or after k holding c, or -1. */
  function IndexFrom(s: seq<byte>, c: byte, k: nat): (r: int)
    requires k <= |s|
    ensures r == -1 || k <= r < |s|
    decreases |s| - k
  {
    if k == |s| then -1
    else if s[k] == c then k
    else IndexFrom(s, c, k + 1)
  }

  /** String::indexOf: the first position of c in s, or -1. */
  function IndexOf(s: seq<byte>, c: byte): (r: int)
    ensures -1 <= r < |s|
  {
    IndexFrom(s, c, 0)
  }

  lemma {:induction false} IndexFromFirst(s: seq<byte>, c: byte, k: nat)
    requires k <= |s|
    ensures IndexFrom(s, c, k) == -1 <==> c !in s[k..]
    ensures IndexFrom(s, c, k) >= 0 ==> s[IndexFrom(s, c, k)] == c && c !in s[k..IndexFrom(s, c, k)]
    decreases |s| - k
  {
    if k < |s| && s[k] != c {
      IndexFromFirst(s, c, k + 1);
      assert s[k..] == [s[k]] + s[k + 1..];
      var r := IndexFrom(s, c, k + 1);
      if r >= 0 {
        assert s[k..r] == [s[k]] + s[k + 1..r];
      }
    }
  }

  /** indexOf finds the first occurrence, and -1 exactly when there is none. */
  lemma IndexOfFirst(s: seq<byte>, c: byte)
    ensures IndexOf(s, c) == -1 <==> c !in s
    ensures IndexOf(s, c) >= 0 ==> s[IndexOf(s, c)] == c && c !in s[..IndexOf(s, c)]
  {
    IndexFromFirst(s, c, 0);
    assert s[0..] == s;
    if IndexOf(s, c) >= 0 {
      assert s[0..IndexOf(s, c)] == s[..IndexOf(s, c)];
    }
  }

  /** s.substring(0, s.indexOf(':')): with no colon the unsigned end index
      is clamped to the length, so the whole string is the field. */
  function FieldBeforeColon(s: seq<byte>): seq<byte>
  {
    var k := IndexOf(s, COLON);
    if k == -1 then s else s[..k]
  }

  /** s.substring(s.indexOf(':') + 1, s.length()): with no colon, s itself. */
  function AfterColon(s: seq<byte>): seq<byte>
  {
    var k := IndexOf(s, COLON);
    if k == -1 then s else s[k + 1..]
  }

  /** A field written before a colon splits off again unchanged. */
  lemma SplitAtColon(f: seq<byte>, rest: seq<byte>)
    requires COLON !in f
    ensures FieldBeforeColon(f + [COLON] + rest) == f
    ensures AfterColon(f + [COLON] + rest) == rest
  {
    var s := f + [COLON] + rest;
    IndexOfFirst(s, COLON);
    assert s[..|f|] == f && s[|f|] == COLON;
    assert s[|f| + 1..] == rest;
  }
}
