/** The configuration part of the store: the access code read by checkPass,
    the writes made by changePass, changePin and changeLockTime, the factory
    image clearData leaves, and the bytes the first-run configuration writes. */
module Config {
  import opened Layout
  import opened Text

  /** checkPass reads at most this many code bytes. */
  const CODE_BYTES: nat := 8
  /** changePass and changePin accept texts strictly shorter than this. */
  const TEXT_LIMIT: nat := 9
  /** changeLockTime accepts texts strictly shorter than this. */
  const LOCKTIME_LIMIT: nat := 4

  /** The code bytes checkPass collects from PINCODE + i on: up to the first
      zero byte or the eighth byte, whichever comes first. */
  function CodeFrom(m: seq<byte>, i: nat): (r: seq<byte>)
    requires |m| == EEPROM_SIZE && i <= CODE_BYTES
    ensures |r| <= CODE_BYTES - i
    ensures r == m[PINCODE + i..PINCODE + i + |r|]
    ensures forall k :: 0 <= k < |r| ==> r[k] != 0
    ensures i + |r| < CODE_BYTES ==> m[PINCODE + i + |r|] == 0
    decreases CODE_BYTES - i
  {
    if i == CODE_BYTES || m[PINCODE + i] == 0 then []
    else [m[PINCODE + i]] + CodeFrom(m, i + 1)
  }

  /** The stored access code as checkPass sees it. */
  function StoredCode(m: seq<byte>): seq<byte>
    requires |m| == EEPROM_SIZE
  {
    CodeFrom(m, 0)
  }

  /** checkPass: the keyed-in text equals the stored code. */
  function CheckPass(m: seq<byte>, pass: seq<byte>): (r: bool)
    requires |m| == EEPROM_SIZE
    ensures r ==> |pass| <= CODE_BYTES
  {
    StoredCode(m) == pass
  }

  /** No byte of s is zero. */
  predicate NoZero(s: seq<byte>)
  {
    forall k :: 0 <= k < |s| ==> s[k] != 0
  }

  /** p is stored from code position i on and ends there: at most 8 - i bytes,
      none zero, followed by a zero unless the eighth byte is reached. */
  predicate StoredAt(m: seq<byte>, i: nat, p: seq<byte>)
    requires |m| == EEPROM_SIZE && i <= CODE_BYTES
  {
    i + |p| <= CODE_BYTES && NoZero(p) && p == m[PINCODE + i..PINCODE + i + |p|] &&
    (i + |p| < CODE_BYTES ==> m[PINCODE + i + |p|] == 0)
  }

  /** A non-empty p is stored at i when its first byte is there and the rest is
      stored at i + 1. */
  lemma StoredAtCons(m: seq<byte>, i: nat, p: seq<byte>)
    requires |m| == EEPROM_SIZE && i < CODE_BYTES && p != [] && m[PINCODE + i] != 0
    ensures StoredAt(m, i, p) <==> p[0] == m[PINCODE + i] && StoredAt(m, i + 1, p[1..])
  {
    if i + |p| <= CODE_BYTES {
      assert NoZero(p) <==> p[0] != 0 && NoZero(p[1..]);
      var field := m[PINCODE + i..PINCODE + i + |p|];
      assert field[1..] == m[PINCODE + i + 1..PINCODE + i + |p|];
      assert p == field <==> p[0] == field[0] && p[1..] == field[1..];
    }
  }

  /** [x] + c is p exactly when p starts with x and continues with c. */
  lemma ConsEquals(x: byte, c: seq<byte>, p: seq<byte>)
    requires p != []
    ensures [x] + c == p <==> p[0] == x && c == p[1..]
  {
    if p[0] == x && c == p[1..] {
      assert p == [p[0]] + p[1..];
    }
  }

  /** Reading from position i yields p exactly when p is stored there. */
  lemma {:induction false} CodeFromExactly(m: seq<byte>, i: nat, p: seq<byte>)
    requires |m| == EEPROM_SIZE && i <= CODE_BYTES
    ensures CodeFrom(m, i) == p <==> StoredAt(m, i, p)
    decreases |p|
  {
    if i == CODE_BYTES || m[PINCODE + i] == 0 {
      if p != [] && i + |p| <= CODE_BYTES && p == m[PINCODE + i..PINCODE + i + |p|] {
        assert p[0] == m[PINCODE + i];
      }
    } else if p != [] {
      CodeFromCons(m, i);
      CodeFromExactly(m, i + 1, p[1..]);
      StoredAtCons(m, i, p);
      ConsEquals(m[PINCODE + i], CodeFrom(m, i + 1), p);
    } else {
      CodeFromCons(m, i);
    }
  }

  /** checkPass accepts p exactly when p is stored at PINCODE and ends there:
      at most 8 bytes, none of them zero, followed by a zero unless all 8 are used. */
  lemma CheckPassExactly(m: seq<byte>, p: seq<byte>)
    requires |m| == EEPROM_SIZE
    ensures CheckPass(m, p) <==>
              |p| <= CODE_BYTES && NoZero(p) && p == m[PINCODE..PINCODE + |p|] &&
              (|p| < CODE_BYTES ==> m[PINCODE + |p|] == 0)
  {
    CodeFromExactly(m, 0, p);
  }

  /** m with the text p written from address at on; every other byte kept. */
  function WriteText(m: seq<byte>, at: nat, p: seq<byte>): (r: seq<byte>)
    requires at + |p| <= |m|
    ensures |r| == |m| && r[at..at + |p|] == p
    ensures forall k :: 0 <= k < |m| && !(at <= k < at + |p|) ==> r[k] == m[k]
  {
    m[..at] + p + m[at + |p|..]
  }

  /** changePass: a text of 1 to 8 bytes is written from ADMINPASS on, with no
      terminator; any other length changes nothing. */
  function PassUpdate(m: seq<byte>, p: seq<byte>): (r: seq<byte>)
    requires |m| == EEPROM_SIZE
    ensures |r| == EEPROM_SIZE
  {
    if 0 < |p| < TEXT_LIMIT then WriteText(m, ADMINPASS, p) else m
  }

  /** changePin: a text of 1 to 8 bytes is written from PINCODE on, with no
      terminator; any other length changes nothing. */
  function PinUpdate(m: seq<byte>, p: seq<byte>): (r: seq<byte>)
    requires |m| == EEPROM_SIZE
    ensures |r| == EEPROM_SIZE
  {
    if 0 < |p| < TEXT_LIMIT then WriteText(m, PINCODE, p) else m
  }

  /** The code read from position i on only depends on bytes PINCODE + i .. PINCODE + 7. */
  lemma {:induction false} CodeFromSame(m: seq<byte>, m': seq<byte>, i: nat)
    requires |m| == EEPROM_SIZE && |m'| == EEPROM_SIZE && i <= CODE_BYTES
    requires m[PINCODE + i..PINCODE + CODE_BYTES] == m'[PINCODE + i..PINCODE + CODE_BYTES]
    ensures CodeFrom(m, i) == CodeFrom(m', i)
    decreases CODE_BYTES - i
  {
    if i < CODE_BYTES {
      var field, field' := m[PINCODE + i..PINCODE + CODE_BYTES], m'[PINCODE + i..PINCODE + CODE_BYTES];
      assert m[PINCODE + i] == field[0] && m'[PINCODE + i] == field'[0];
      assert field[1..] == m[PINCODE + i + 1..PINCODE + CODE_BYTES];
      assert field'[1..] == m'[PINCODE + i + 1..PINCODE + CODE_BYTES];
      CodeFromSame(m, m', i + 1);
      if m[PINCODE + i] != 0 {
        CodeFromCons(m, i);
        CodeFromCons(m', i);
      }
    }
  }

  /** A non-zero byte before the eighth is read and the scan goes on. */
  lemma CodeFromCons(m: seq<byte>, i: nat)
    requires |m| == EEPROM_SIZE && i < CODE_BYTES && m[PINCODE + i] != 0
    ensures CodeFrom(m, i) == [m[PINCODE + i]] + CodeFrom(m, i + 1)
  {
  }

  /** Putting x in front of a and then appending b. */
  lemma ConsThenAppend(x: byte, a: seq<byte>, b: seq<byte>, xa: seq<byte>)
    requires xa == [x] + a
    ensures [x] + (a + b) == xa + b
  {
  }

  /** When w holds p from PINCODE on and agrees with m on the code bytes after
      it, reading w from position i <= |p| yields the rest of p followed by
      what m holds after it. */
  lemma {:induction false} CodeFromWritten(m: seq<byte>, w: seq<byte>, p: seq<byte>, i: nat)
    requires |m| == EEPROM_SIZE && |w| == EEPROM_SIZE && |p| <= CODE_BYTES && NoZero(p) && i <= |p|
    requires w[PINCODE..PINCODE + |p|] == p
    requires w[PINCODE + |p|..PINCODE + CODE_BYTES] == m[PINCODE + |p|..PINCODE + CODE_BYTES]
    ensures CodeFrom(w, i) == p[i..] + CodeFrom(m, |p|)
    decreases |p| - i
  {
    if i == |p| {
      CodeFromSame(w, m, i);
      assert p[i..] == [];
    } else {
      assert w[PINCODE + i] == p[i] by {
        assert w[PINCODE..PINCODE + |p|][i] == w[PINCODE + i];
      }
      CodeFromCons(w, i);
      CodeFromWritten(m, w, p, i + 1);
      ConsThenAppend(p[i], p[i + 1..], CodeFrom(m, |p|), p[i..]);
    }
  }

  /** A new code of 1 to 8 non-zero bytes becomes the stored code followed by
      whatever the old store held after it: a code shorter than the old one
      keeps the old trailing digits. */
  lemma PinUpdateCode(m: seq<byte>, p: seq<byte>)
    requires |m| == EEPROM_SIZE && 0 < |p| <= CODE_BYTES && NoZero(p)
    ensures StoredCode(PinUpdate(m, p)) == p + CodeFrom(m, |p|)
    ensures |p| <= |StoredCode(m)| ==> StoredCode(PinUpdate(m, p)) == p + StoredCode(m)[|p|..]
    ensures CheckPass(PinUpdate(m, p), p) <==> |p| == CODE_BYTES || m[PINCODE + |p|] == 0
  {
    var w := WriteText(m, PINCODE, p);
    assert w[PINCODE + |p|..PINCODE + CODE_BYTES] == m[PINCODE + |p|..PINCODE + CODE_BYTES];
    CodeFromWritten(m, w, p, 0);
    assert p[0..] == p;
    if |p| <= |StoredCode(m)| {
      CodeFromTail(m, |p|);
    }
  }

  /** Reading from position i gives the stored code with its first i bytes dropped. */
  lemma {:induction false} CodeFromTail(m: seq<byte>, i: nat)
    requires |m| == EEPROM_SIZE && i <= |StoredCode(m)|
    ensures CodeFrom(m, i) == StoredCode(m)[i..]
  {
    if i > 0 {
      CodeFromTail(m, i - 1);
      assert StoredCode(m)[i..] == StoredCode(m)[i - 1..][1..];
    }
  }

  /** A changePin text whose length is 0 or at least 9 leaves the store as it was. */
  lemma PinUpdateRejects(m: seq<byte>, p: seq<byte>)
    requires |m| == EEPROM_SIZE && (|p| == 0 || |p| >= TEXT_LIMIT)
    ensures PinUpdate(m, p) == m && PassUpdate(m, p) == m
  {
  }

  /** changePin only touches the code bytes PINCODE .. PINCODE + |p| - 1. */
  lemma PinUpdateFrame(m: seq<byte>, p: seq<byte>)
    requires |m| == EEPROM_SIZE
    ensures forall k :: 0 <= k < EEPROM_SIZE && !(PINCODE <= k < PINCODE + |p|) ==> PinUpdate(m, p)[k] == m[k]
  {
  }

  /** The value changeLockTime stores for text p, or None when it rejects p:
      1 to 3 decimal digits, read as a number and truncated to uint8_t. */
  function LockTimeValue(p: seq<byte>): (r: Option<byte>)
    ensures r.Some? <==> 0 < |p| < LOCKTIME_LIMIT && AllDigits(p)
  {
    if 0 < |p| < LOCKTIME_LIMIT && AllDigits(p) then Some((DigitsValue(p) % 256) as byte) else None
  }

  /** "300" is stored as 44 (300 mod 256), and "0" as 0, which switches the lockout off. */
  lemma LockTimeExamples()
    ensures LockTimeValue([51, 48, 48]) == Some(44)
    ensures LockTimeValue([48]) == Some(0)
    ensures LockTimeValue([49, 48, 48, 48]) == None
    ensures LockTimeValue([53, 97]) == None
  {
    assert DigitsValue([51]) == 3;
    assert [51, 48, 48][..2] == [51, 48];
    assert [51, 48][..1] == [51];
    assert DigitsValue([51, 48, 48]) == 300;
    assert !IsDigit([53, 97][1]);
  }

  /** The default admin password "admin". */
  const ADMIN_DEFAULT: seq<byte> := [97, 100, 109, 105, 110]
  /** The default lock time in minutes. */
  const LOCKTIME_DEFAULT: byte := 5

  /** Byte k of the image clearData leaves: everything zero except the first-run
      flag, "admin" with its terminator, the three feature flags and the lock time. */
  function DefaultByte(k: nat): byte
  {
    if k == FIRSTRUN then 1
    else if ADMINPASS <= k < ADMINPASS + |ADMIN_DEFAULT| then ADMIN_DEFAULT[k - ADMINPASS]
    else if k == NFCENABLED || k == PASSENABLED || k == SCANNERENABLED then 1
    else if k == LOCKTIME then LOCKTIME_DEFAULT
    else 0
  }

  /** The whole image after clearData. */
  function DefaultImage(): (r: seq<byte>)
    ensures |r| == EEPROM_SIZE
  {
    seq(EEPROM_SIZE, k requires 0 <= k < EEPROM_SIZE => DefaultByte(k))
  }

  /** After clearData the registry is empty, the first-run flag is set, and the
      code byte shared with the scanner flag makes the stored code the single
      byte 1: no text of keypad digits can ever match it. */
  lemma DefaultImageFacts()
    ensures WellFormed(DefaultImage()) && Count(DefaultImage()) == 0
    ensures DefaultImage()[FIRSTRUN] == 1
    ensures StoredCode(DefaultImage()) == [1]
    ensures forall p :: AllDigits(p) ==> !CheckPass(DefaultImage(), p)
  {
    var m := DefaultImage();
    assert m[PINCODE] == 1 && m[PINCODE + 1] == 0;
    assert StoredCode(m) == [1] + CodeFrom(m, 1);
    forall p | AllDigits(p)
      ensures !CheckPass(m, p)
    {
      if p != [] {
        assert IsDigit(p[0]);
      }
    }
  }

  /** The store after the first-run configuration: the master card at
      MASTERCARDID, the keyed-in code from PINCODE on, first-run flag cleared. */
  function FirstRunImage(m: seq<byte>, master: Card, pin: seq<byte>): (r: seq<byte>)
    requires |m| == EEPROM_SIZE && |pin| <= TEXT_LIMIT
    ensures |r| == EEPROM_SIZE && r[FIRSTRUN] == 0
    ensures r[PINCODE..PINCODE + |pin|] == pin
  {
    WriteText(WriteText(m, MASTERCARDID, master), PINCODE, pin)[FIRSTRUN := 0]
  }

  /** A first-run code of up to 8 digits keeps the master card intact, while a
      9-digit one overwrites the master card's first byte with its last digit
      and can never be accepted by checkPass. */
  lemma FirstRunOverlap(m: seq<byte>, master: Card, pin: seq<byte>)
    requires |m| == EEPROM_SIZE && |pin| <= TEXT_LIMIT
    ensures |pin| < TEXT_LIMIT ==> FirstRunImage(m, master, pin)[MASTERCARDID..MASTERCARDID + CARDSIZE] == master
    ensures |pin| == TEXT_LIMIT ==>
              FirstRunImage(m, master, pin)[MASTERCARDID] == pin[8] &&
              FirstRunImage(m, master, pin)[MASTERCARDID + 1..MASTERCARDID + CARDSIZE] == master[1..] &&
              !CheckPass(FirstRunImage(m, master, pin), pin)
  {
    var w := WriteText(m, MASTERCARDID, master);
    var r := FirstRunImage(m, master, pin);
    if |pin| < TEXT_LIMIT {
      assert r[MASTERCARDID..MASTERCARDID + CARDSIZE] == w[MASTERCARDID..MASTERCARDID + CARDSIZE];
    } else {
      assert r[MASTERCARDID] == pin[8];
      assert r[MASTERCARDID + 1..MASTERCARDID + CARDSIZE] == w[MASTERCARDID + 1..MASTERCARDID + CARDSIZE];
    }
  }

  /** With a 9-byte first-run code, the stored code is its first 8 bytes: typing
      those 8 is accepted. */
  lemma FirstRunFirstEight(m: seq<byte>, master: Card, pin: seq<byte>)
    requires |m| == EEPROM_SIZE && |pin| == TEXT_LIMIT && NoZero(pin)
    ensures CheckPass(FirstRunImage(m, master, pin), pin[..CODE_BYTES])
  {
    var r := FirstRunImage(m, master, pin);
    var eight := pin[..CODE_BYTES];
    assert r[PINCODE..PINCODE + CODE_BYTES] == r[PINCODE..PINCODE + |pin|][..CODE_BYTES];
    assert NoZero(eight);
    CheckPassExactly(r, eight);
  }

  /** Switching the scanner off writes 0 into the first code byte: the stored
      code becomes empty and an empty keypad submission is accepted. */
  lemma ScannerOffEmptiesCode(m: seq<byte>)
    requires |m| == EEPROM_SIZE
    ensures StoredCode(m[SCANNERENABLED := 0]) == []
    ensures CheckPass(m[SCANNERENABLED := 0], [])
  {
  }

  /** Switching the scanner on writes 1 into the first code byte, so the stored
      code starts with byte 1 and no text of keypad digits matches it. */
  lemma ScannerOnBreaksCode(m: seq<byte>)
    requires |m| == EEPROM_SIZE
    ensures StoredCode(m[SCANNERENABLED := 1])[0] == 1
    ensures forall p :: AllDigits(p) ==> !CheckPass(m[SCANNERENABLED := 1], p)
  {
    var m' := m[SCANNERENABLED := 1];
    assert StoredCode(m') == [1] + CodeFrom(m', 1);
    forall p | AllDigits(p)
      ensures !CheckPass(m', p)
    {
      if p != [] {
        assert IsDigit(p[0]);
      }
    }
  }
}
