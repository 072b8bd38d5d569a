/** Barcode decoding: h2i turns a colon-separated hexadecimal quadruple into a
    colon-terminated decimal one, and the quadruple parser (shared by the
    barcode check and the administrative delete) reads four bytes back. */
module Barcode {
  import opened Layout
  import opened Text

  /** Number of colon-separated fields in a card identifier. */
  const FIELDS: nat := 4

  /** The first k fields of s as the split loops see them: each pass takes the
      text before the first colon and continues after it. */
  function Tokens(s: seq<byte>, k: nat): (r: seq<seq<byte>>)
    ensures |r| == k
  {
    if k == 0 then [] else [FieldBeforeColon(s)] + Tokens(AfterColon(s), k - 1)
  }

  /** One field read as hexadecimal (strtol base 16) and rendered in decimal. */
  function DecimalToken(t: seq<byte>): seq<byte>
  {
    DecimalString(HexToLong(t))
  }

  /** The decimal renderings of the tokens, each followed by a colon. */
  function Render(ts: seq<seq<byte>>): seq<byte>
  {
    if ts == [] then [] else DecimalToken(ts[0]) + [COLON] + Render(ts[1..])
  }

  /** What h2i returns for the scanned text d. */
  function DecimalQuad(d: seq<byte>): seq<byte>
  {
    Render(Tokens(d, FIELDS))
  }

  /** The bytes the parse loop reads from the tokens: toInt, truncated to uint8_t. */
  function ParseTokens(ts: seq<seq<byte>>): (r: seq<byte>)
    ensures |r| == |ts|
  {
    if ts == [] then [] else [(ToInt(ts[0]) % 256) as byte] + ParseTokens(ts[1..])
  }

  /** The card a decimal quadruple "a:b:c:d:" denotes. */
  function ParseQuad(code: seq<byte>): Card
  {
    ParseTokens(Tokens(code, FIELDS))
  }

  /** The first field and the fields after it. */
  lemma TokensCons(s: seq<byte>, k: nat)
    requires k > 0
    ensures Tokens(s, k)[0] == FieldBeforeColon(s)
    ensures Tokens(s, k)[1..] == Tokens(AfterColon(s), k - 1)
  {
  }

  lemma RenderCons(ts: seq<seq<byte>>)
    requires ts != []
    ensures Render(ts) == DecimalToken(ts[0]) + [COLON] + Render(ts[1..])
  {
  }

  /** One pass of h2i's loop: the converted field and its colon move from the
      remaining fields to the output. */
  lemma RenderStep(r: seq<byte>, rest: seq<byte>, left: nat)
    requires left > 0
    ensures r + Render(Tokens(rest, left))
         == (r + DecimalToken(FieldBeforeColon(rest)) + [COLON]) + Render(Tokens(AfterColon(rest), left - 1))
  {
    var ts := Tokens(rest, left);
    TokensCons(rest, left);
    RenderCons(ts);
    var dec := DecimalToken(ts[0]);
    var tail := Render(ts[1..]);
    assert r + (dec + [COLON] + tail) == (r + dec + [COLON]) + tail;
  }

  /** h2i: the loop over four fields, converting each from hexadecimal to decimal. */
  method H2i(d: seq<byte>) returns (r: seq<byte>)
    ensures r == DecimalQuad(d)
  {
    r := [];
    var rest := d;
    var left := FIELDS;
    while left > 0
      invariant r + Render(Tokens(rest, left)) == DecimalQuad(d)
    {
      RenderStep(r, rest, left);
      r := r + DecimalString(HexToLong(FieldBeforeColon(rest))) + [COLON];
      rest := AfterColon(rest);
      left := left - 1;
    }
  }

  /** One pass of the parse loop. */
  lemma ParseStep(out: seq<byte>, rest: seq<byte>, left: nat)
    requires left > 0
    ensures out + ParseTokens(Tokens(rest, left))
         == (out + [(ToInt(FieldBeforeColon(rest)) % 256) as byte]) + ParseTokens(Tokens(AfterColon(rest), left - 1))
  {
    var ts := Tokens(rest, left);
    assert ts[0] == FieldBeforeColon(rest) && ts[1..] == Tokens(AfterColon(rest), left - 1);
  }

  /** The four-field parse loop of barcodeCheck and del. */
  method ParseCard(code: seq<byte>) returns (card: Card)
    ensures card == ParseQuad(code)
  {
    var out: seq<byte> := [];
    var rest := code;
    var left := FIELDS;
    while left > 0
      invariant |out| + left == FIELDS
      invariant out + ParseTokens(Tokens(rest, left)) == ParseQuad(code)
    {
      ParseStep(out, rest, left);
      out := out + [(ToInt(FieldBeforeColon(rest)) % 256) as byte];
      rest := AfterColon(rest);
      left := left - 1;
    }
    card := out;
  }

  /** Each parsed byte is its token's toInt, truncated to a byte. */
  lemma {:induction false} ParseTokensAt(ts: seq<seq<byte>>, i: nat)
    requires i < |ts|
    ensures ParseTokens(ts)[i] as nat == ToInt(ts[i]) % 256
  {
    if i > 0 {
      ParseTokensAt(ts[1..], i - 1);
    }
  }

  /** A decimal rendering holds no colon. */
  lemma DecimalHasNoColon(v: nat)
    ensures COLON !in DecimalString(v)
  {
    var s := DecimalString(v);
    forall j | 0 <= j < |s|
      ensures s[j] != COLON
    {
      assert IsDigit(s[j]);
    }
  }

  /** Fields written one after the other, each followed by a colon. */
  function Joined(fs: seq<seq<byte>>): seq<byte>
  {
    if fs == [] then [] else fs[0] + [COLON] + Joined(fs[1..])
  }

  /** The first of the joined fields splits off again. */
  lemma JoinedFirst(fs: seq<seq<byte>>)
    requires fs != [] && COLON !in fs[0]
    ensures Tokens(Joined(fs), |fs|)[0] == fs[0]
  {
    SplitAtColon(fs[0], Joined(fs[1..]));
  }

  /** What follows the first joined field is the rest of the fields joined. */
  lemma JoinedAfter(fs: seq<seq<byte>>)
    requires fs != [] && COLON !in fs[0]
    ensures AfterColon(Joined(fs)) == Joined(fs[1..])
  {
    SplitAtColon(fs[0], Joined(fs[1..]));
  }

  /** Field i of s is field i - 1 of what follows s's first colon. */
  lemma TokensShift(s: seq<byte>, k: nat, rest: seq<byte>, k': nat, i: nat)
    requires 0 < i < k && k' == k - 1 && AfterColon(s) == rest
    ensures Tokens(s, k)[i] == Tokens(rest, k')[i - 1]
  {
    TokensCons(s, k);
  }

  /** After the first field come the remaining joined fields. */
  lemma JoinedRest(fs: seq<seq<byte>>, i: nat)
    requires 0 < i < |fs| && COLON !in fs[0]
    ensures Tokens(Joined(fs), |fs|)[i] == Tokens(Joined(fs[1..]), |fs[1..]|)[i - 1]
  {
    JoinedAfter(fs);
    TokensShift(Joined(fs), |fs|, Joined(fs[1..]), |fs[1..]|, i);
  }

  /** Colon-free fields. */
  predicate NoColons(fs: seq<seq<byte>>)
  {
    forall j :: 0 <= j < |fs| ==> COLON !in fs[j]
  }

  /** Splitting joined colon-free fields gives field i back. */
  lemma {:induction false} TokensOfJoined(fs: seq<seq<byte>>, i: nat)
    requires i < |fs| && NoColons(fs)
    ensures Tokens(Joined(fs), |fs|)[i] == fs[i]
  {
    if i == 0 {
      JoinedFirst(fs);
    } else {
      JoinedRest(fs, i);
      assert NoColons(fs[1..]) by {
        forall j | 0 <= j < |fs| - 1
          ensures COLON !in fs[1..][j]
        {
          assert fs[1..][j] == fs[j + 1];
        }
      }
      TokensOfJoined(fs[1..], i - 1);
      assert fs[1..][i - 1] == fs[i];
    }
  }

  /** The decimal renderings of the tokens' hexadecimal values. */
  function DecimalFields(ts: seq<seq<byte>>): (r: seq<seq<byte>>)
    ensures |r| == |ts|
  {
    if ts == [] then [] else [DecimalToken(ts[0])] + DecimalFields(ts[1..])
  }

  lemma {:induction false} DecimalFieldsAt(ts: seq<seq<byte>>, i: nat)
    requires i < |ts|
    ensures DecimalFields(ts)[i] == DecimalToken(ts[i]) && COLON !in DecimalFields(ts)[i]
  {
    if i == 0 {
      DecimalHasNoColon(HexToLong(ts[0]));
    } else {
      DecimalFieldsAt(ts[1..], i - 1);
      assert ts[1..][i - 1] == ts[i];
    }
  }

  /** h2i's output is the decimal fields joined. */
  lemma {:induction false} RenderJoined(ts: seq<seq<byte>>)
    ensures Render(ts) == Joined(DecimalFields(ts))
  {
    if ts != [] {
      RenderJoined(ts[1..]);
      assert DecimalFields(ts)[1..] == DecimalFields(ts[1..]);
    }
  }

  /** Splitting h2i's output field by field gives back field i's decimal rendering. */
  lemma RenderToken(ts: seq<seq<byte>>, i: nat)
    requires i < |ts|
    ensures Tokens(Render(ts), |ts|)[i] == DecimalToken(ts[i])
  {
    var fs := DecimalFields(ts);
    RenderJoined(ts);
    forall j | 0 <= j < |fs|
      ensures COLON !in fs[j]
    {
      DecimalFieldsAt(ts, j);
    }
    TokensOfJoined(fs, i);
    DecimalFieldsAt(ts, i);
  }

  /** The decimal text loses nothing: the card barcodeCheck builds from h2i's
      output holds each hexadecimal field's value truncated to a byte. */
  lemma BarcodeCard(d: seq<byte>)
    ensures forall i :: 0 <= i < FIELDS ==>
              ParseQuad(DecimalQuad(d))[i] as nat == HexToLong(Tokens(d, FIELDS)[i]) % 256
  {
    var ts := Tokens(d, FIELDS);
    var out := Tokens(DecimalQuad(d), FIELDS);
    forall i | 0 <= i < FIELDS
      ensures ParseQuad(DecimalQuad(d))[i] as nat == HexToLong(ts[i]) % 256
    {
      RenderToken(ts, i);
      ParseTokensAt(out, i);
      ToIntDecimal(HexToLong(ts[i]));
    }
  }

  /** A sequence of bytes written as the admin page sends a card to del:
      each byte in decimal followed by a colon ("a:b:c:d:"). */
  function CardText(bs: seq<byte>): seq<byte>
  {
    if bs == [] then [] else DecimalString(bs[0] as nat) + [COLON] + CardText(bs[1..])
  }

  /** The decimal renderings of the bytes. */
  function ByteFields(bs: seq<byte>): (r: seq<seq<byte>>)
    ensures |r| == |bs|
  {
    if bs == [] then [] else [DecimalString(bs[0] as nat)] + ByteFields(bs[1..])
  }

  lemma {:induction false} ByteFieldsAt(bs: seq<byte>, i: nat)
    requires i < |bs|
    ensures ByteFields(bs)[i] == DecimalString(bs[i] as nat) && COLON !in ByteFields(bs)[i]
  {
    if i == 0 {
      DecimalHasNoColon(bs[0] as nat);
    } else {
      ByteFieldsAt(bs[1..], i - 1);
      assert bs[1..][i - 1] == bs[i];
    }
  }

  /** A card's text is its decimal fields joined. */
  lemma {:induction false} CardTextJoined(bs: seq<byte>)
    ensures CardText(bs) == Joined(ByteFields(bs))
  {
    if bs != [] {
      CardTextJoined(bs[1..]);
      assert ByteFields(bs)[1..] == ByteFields(bs[1..]);
    }
  }

  /** Splitting a card's text field by field gives back byte i's decimal rendering. */
  lemma CardTextToken(bs: seq<byte>, i: nat)
    requires i < |bs|
    ensures Tokens(CardText(bs), |bs|)[i] == DecimalString(bs[i] as nat)
  {
    var fs := ByteFields(bs);
    CardTextJoined(bs);
    forall j | 0 <= j < |fs|
      ensures COLON !in fs[j]
    {
      ByteFieldsAt(bs, j);
    }
    TokensOfJoined(fs, i);
    ByteFieldsAt(bs, i);
  }

  /** Byte i of del's parse of a card's text is byte i of the card. */
  lemma CardTextByte(c: Card, i: nat)
    requires i < FIELDS
    ensures ParseQuad(CardText(c))[i] == c[i]
  {
    var ts := Tokens(CardText(c), FIELDS);
    ParseTokensAt(ts, i);
    CardTextToken(c, i);
    ToIntDecimalByte(c[i] as nat);
  }

  /** del's parse reads back exactly the card whose text the admin page sent. */
  lemma CardTextRoundTrip(c: Card)
    ensures ParseQuad(CardText(c)) == c
  {
    forall i | 0 <= i < FIELDS
      ensures ParseQuad(CardText(c))[i] == c[i]
    {
      CardTextByte(c, i);
    }
  }

  /** A two-digit hexadecimal field is read as high digit times 16 plus low digit. */
  lemma HexPair(a: byte, b: byte)
    requires IsHexDigit(a) && IsHexDigit(b)
    ensures HexToLong([a, b]) == HexDigitValue(a) * 16 + HexDigitValue(b)
  {
    assert [a, b][1..] == [b] && [b][1..] == [];
    assert LeadingHex([b]) == [b];
    assert LeadingHex([a, b]) == [a, b];
    assert [a, b][..1] == [a] && [a][..0] == [];
    assert HexDigitsValue([a]) == HexDigitValue(a);
  }

  /** h2i's output is the card text of the fields' values when each fits in a byte. */
  lemma {:induction false} RenderIsCardText(ts: seq<seq<byte>>, bs: seq<byte>)
    requires |ts| == |bs| && forall i :: 0 <= i < |ts| ==> HexToLong(ts[i]) == bs[i] as nat
    ensures Render(ts) == CardText(bs)
  {
    if ts != [] {
      RenderIsCardText(ts[1..], bs[1..]);
    }
  }

  /** Four fields whose values are the bytes of c render as c's text. */
  lemma RenderFour(t0: seq<byte>, t1: seq<byte>, t2: seq<byte>, t3: seq<byte>, c: Card)
    requires HexToLong(t0) == c[0] as nat && HexToLong(t1) == c[1] as nat
    requires HexToLong(t2) == c[2] as nat && HexToLong(t3) == c[3] as nat
    ensures Render([t0, t1, t2, t3]) == CardText(c)
  {
    var ts := [t0, t1, t2, t3];
    forall i | 0 <= i < |ts|
      ensures HexToLong(ts[i]) == c[i] as nat
    {
    }
    RenderIsCardText(ts, c);
  }

  /** A card's text field by field. */
  lemma CardTextFour(c: Card)
    ensures CardText(c) == DecimalString(c[0] as nat) + [COLON] + DecimalString(c[1] as nat) + [COLON]
                         + DecimalString(c[2] as nat) + [COLON] + DecimalString(c[3] as nat) + [COLON]
  {
    assert c[1..][1..] == c[2..] && c[2..][1..] == c[3..] && c[3..][1..] == [];
    assert CardText(c[3..]) == DecimalString(c[3] as nat) + [COLON];
    assert CardText(c[2..]) == DecimalString(c[2] as nat) + [COLON] + CardText(c[3..]);
    assert CardText(c[1..]) == DecimalString(c[1] as nat) + [COLON] + CardText(c[2..]);
  }

  /** The decimal renderings of the example's byte values. */
  lemma ExampleDecimals()
    ensures DecimalString(172) == [49, 55, 50] && DecimalString(61) == [54, 49]
    ensures DecimalString(255) == [50, 53, 53] && DecimalString(160) == [49, 54, 48]
  {
    assert DecimalString(17) == [49, 55];
    assert DecimalString(25) == [50, 53];
    assert DecimalString(16) == [49, 54];
  }

  /** The card [172, 61, 255, 160] as text. */
  lemma ExampleCardText()
    ensures CardText([172, 61, 255, 160]) == [49, 55, 50, 58, 54, 49, 58, 50, 53, 53, 58, 49, 54, 48, 58]
  {
    CardTextFour([172, 61, 255, 160]);
    ExampleDecimals();
  }

  /** When d splits into fields whose rendering is c's text, h2i's output is
      that text and parses back to c. */
  lemma QuadOfTokens(d: seq<byte>, ts: seq<seq<byte>>, c: Card)
    requires Tokens(d, FIELDS) == ts && Render(ts) == CardText(c)
    ensures DecimalQuad(d) == CardText(c) && ParseQuad(DecimalQuad(d)) == c
  {
    CardTextRoundTrip(c);
  }

  /** The scanned text "AC:3D:FF:A0" splits into its four fields. */
  lemma ExampleTokens()
    ensures Tokens([65, 67, 58, 51, 68, 58, 70, 70, 58, 65, 48], FIELDS) == [[65, 67], [51, 68], [70, 70], [65, 48]]
  {
    var d: seq<byte> := [65, 67, 58, 51, 68, 58, 70, 70, 58, 65, 48];
    var r1: seq<byte> := [51, 68, 58, 70, 70, 58, 65, 48];
    var r2: seq<byte> := [70, 70, 58, 65, 48];
    var r3: seq<byte> := [65, 48];
    assert d == [65, 67] + [COLON] + r1;
    SplitAtColon([65, 67], r1);
    assert r1 == [51, 68] + [COLON] + r2;
    SplitAtColon([51, 68], r2);
    assert r2 == [70, 70] + [COLON] + r3;
    SplitAtColon([70, 70], r3);
    IndexOfFirst(r3, COLON);
    assert Tokens(r3, 1) == [r3];
    assert Tokens(r2, 2) == [[70, 70], r3];
    assert Tokens(r1, 3) == [[51, 68], [70, 70], r3];
  }

  /** h2i turns "AC:3D:FF:A0" into "172:61:255:160:", and the quadruple parser
      reads that back as the card [172, 61, 255, 160]. */
  lemma H2iExample()
    ensures DecimalQuad([65, 67, 58, 51, 68, 58, 70, 70, 58, 65, 48])
         == [49, 55, 50, 58, 54, 49, 58, 50, 53, 53, 58, 49, 54, 48, 58]
    ensures ParseQuad(DecimalQuad([65, 67, 58, 51, 68, 58, 70, 70, 58, 65, 48])) == [172, 61, 255, 160]
  {
    HexPair(65, 67);
    HexPair(51, 68);
    HexPair(70, 70);
    HexPair(65, 48);
    RenderFour([65, 67], [51, 68], [70, 70], [65, 48], [172, 61, 255, 160]);
    ExampleTokens();
    QuadOfTokens([65, 67, 58, 51, 68, 58, 70, 70, 58, 65, 48], [[65, 67], [51, 68], [70, 70], [65, 48]], [172, 61, 255, 160]);
    ExampleCardText();
  }
}
