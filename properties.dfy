/** What the controller guarantees, and where it does not behave as its
    documentation suggests: the invariant every pass keeps, the lockout cycle,
    enrolment mode, the barcode outcome, the web handlers and start-up. */
module Properties {
  import opened Layout
  import opened Text
  import opened CardRegistry
  import opened Barcode
  import opened Config
  import opened Machine

  // The invariant.

  /** Every pass of loop keeps the invariant: the registry stays within its
      capacity and free of duplicates (enrolment toggles a card only below 120
      cards, and the toggle removes a present card rather than adding it
      again), the failure count stays at most five (a pass that starts below
      three can fail the card, keypad and barcode checks once each), and the
      keypad buffer stays within nine bytes. */
  lemma LoopStepKeepsInv(s: State, inp: Input)
    requires Inv(s)
    ensures Inv(LoopStep(s, inp))
  {
    if s.tries < LOCK_TRIES {
      ActivePassKeepsInv(s, inp);
    } else {
      assert LoopStep(s, inp) == LockoutPass(s, inp.tick).(uid := None);
    }
  }

  /** A pass below three failures keeps the invariant. */
  lemma ActivePassKeepsInv(s: State, inp: Input)
    requires Inv(s) && s.tries < LOCK_TRIES
    ensures Inv(ActivePass(s, inp))
  {
    var p := Poll(s, inp);
    if MasterSeen(s, inp) {
    } else if p.masterAccess {
      EnrolKeepsInv(p);
    } else {
      assert ActivePass(s, inp) == UserPass(p, inp);
    }
  }

  /** Enrolment keeps the registry free of duplicates: a present card is
      removed, an absent one appended. */
  lemma EnrolKeepsInv(p: State)
    requires Inv(p)
    ensures Inv(Enrol(p))
  {
    if p.uid.Some? && p.uid.value != p.masterId && Count(p.mem) < MAX_CARDS {
      ToggleRegistry(p.mem, p.uid.value);
    }
  }

  /** A new memory image that agrees with the old one from the count byte on
      keeps the invariant. */
  lemma LowWriteKeepsInv(s: State, m: seq<byte>)
    requires Inv(s) && |m| == EEPROM_SIZE
    requires forall k :: USERCARDSCOUNT <= k < EEPROM_SIZE ==> m[k] == s.mem[k]
    ensures Inv(s.(mem := m))
  {
    SameRegistry(s.mem, m);
  }

  /** changePass and changePin write below the count byte. */
  lemma TextHandlersKeepInv(s: State, authorized: bool, arg: Option<seq<byte>>)
    requires Inv(s)
    ensures Inv(ChangePassStep(s, authorized, arg)) && Inv(ChangePinStep(s, authorized, arg))
  {
    if arg.Some? && 0 < |arg.value| < TEXT_LIMIT {
      var p := arg.value;
      LowWriteKeepsInv(s, WriteText(s.mem, ADMINPASS, p));
      LowWriteKeepsInv(s, WriteText(s.mem, PINCODE, p));
    }
  }

  /** changeLockTime writes the byte before the count. */
  lemma LockTimeHandlerKeepsInv(s: State, authorized: bool, arg: Option<seq<byte>>)
    requires Inv(s)
    ensures Inv(ChangeLockTimeStep(s, authorized, arg))
  {
    if arg.Some? && LockTimeValue(arg.value).Some? {
      LowWriteKeepsInv(s, s.mem[LOCKTIME := LockTimeValue(arg.value).value]);
    }
  }

  /** The toggles write flag bytes below the count byte. */
  lemma ToggleHandlersKeepInv(s: State, authorized: bool)
    requires Inv(s)
    ensures Inv(ToggleNfcStep(s, authorized)) && Inv(ToggleKeypadStep(s, authorized))
    ensures Inv(ToggleScannerStep(s, authorized))
  {
    if authorized {
      LowWriteKeepsInv(s, s.mem[NFCENABLED := FlagByte(!s.nfc)]);
      LowWriteKeepsInv(s, s.mem[PASSENABLED := FlagByte(!s.keypad)]);
      LowWriteKeepsInv(s, s.mem[SCANNERENABLED := FlagByte(!s.scanner)]);
    }
  }

  /** del leaves a well-formed registry without duplicates. */
  lemma DeleteHandlerKeepsInv(s: State, authorized: bool, arg: Option<seq<byte>>)
    requires Inv(s)
    ensures Inv(DeleteStep(s, authorized, arg))
  {
    if authorized && arg.Some? {
      DeleteRegistry(s.mem, ParseQuad(arg.value));
    }
  }

  /** Every web handler keeps the invariant. */
  lemma HandlersKeepInv(s: State, authorized: bool, arg: Option<seq<byte>>)
    requires Inv(s)
    ensures Inv(ChangePassStep(s, authorized, arg)) && Inv(ChangePinStep(s, authorized, arg))
    ensures Inv(ChangeLockTimeStep(s, authorized, arg))
    ensures Inv(ToggleNfcStep(s, authorized)) && Inv(ToggleKeypadStep(s, authorized))
    ensures Inv(ToggleScannerStep(s, authorized))
    ensures Inv(DeleteStep(s, authorized, arg))
  {
    TextHandlersKeepInv(s, authorized, arg);
    LockTimeHandlerKeepsInv(s, authorized, arg);
    ToggleHandlersKeepInv(s, authorized);
    DeleteHandlerKeepsInv(s, authorized, arg);
  }

  // The lockout.

  /** Number of passes that see a timer tick. */
  function Ticks(ins: seq<Input>): (n: nat)
    ensures n <= |ins|
  {
    if ins == [] then 0 else Ticks(ins[..|ins| - 1]) + (if ins[|ins| - 1].tick then 1 else 0)
  }

  /** Consecutive passes of loop. */
  function Run(s: State, ins: seq<Input>): (r: State)
    requires WellFormed(s.mem)
    ensures WellFormed(r.mem)
  {
    if ins == [] then s else LoopStep(Run(s, ins[..|ins| - 1]), ins[|ins| - 1])
  }

  /** While the lockout runs, no card is checked and no key or barcode byte is read: the passes
      only count timer ticks, and nothing else changes. */
  lemma {:induction false} LockoutIgnoresInput(s: State, ins: seq<Input>)
    requires WellFormed(s.mem) && s.tries >= LOCK_TRIES
    requires s.seconds + Ticks(ins) < s.locktime as nat * SECONDS_PER_MINUTE
    ensures Run(s, ins) == s.(seconds := s.seconds + Ticks(ins), uid := if ins == [] then s.uid else None)
  {
    if ins != [] {
      LockoutIgnoresInput(s, ins[..|ins| - 1]);
    }
  }

  /** The pass whose tick brings the count of seconds to the lock time ends the
      lockout: the failure count and the seconds are reset. */
  lemma LockoutEnds(s: State, ins: seq<Input>, last: Input)
    requires WellFormed(s.mem) && s.tries >= LOCK_TRIES
    requires last.tick && s.seconds + Ticks(ins) + 1 == s.locktime as nat * SECONDS_PER_MINUTE
    ensures Run(s, ins + [last]) == s.(tries := 0, seconds := 0, uid := None, log := s.log + [Unlocked])
  {
    LockoutIgnoresInput(s, ins);
    assert (ins + [last])[..|ins|] == ins;
  }

  /** A lock time of 0 (changeLockTime accepts "0") switches the lockout off:
      the next pass resets the failure count, tick or no tick. */
  lemma ZeroLockTime(s: State, inp: Input)
    requires WellFormed(s.mem) && s.tries >= LOCK_TRIES && s.locktime == 0
    ensures LoopStep(s, inp).tries == 0 && LoopStep(s, inp).mem == s.mem
  {
  }

  /** accessGranted clears the failure count and the lockout counter whatever
      they were; accessDenied counts one more failure and announces the lockout
      exactly when the count reaches three. */
  lemma GrantDenyCounters(s: State)
    requires s.tries < 255
    ensures Grant(s).tries == 0 && Grant(s).seconds == 0
    ensures Deny(s).tries == s.tries + 1 && Deny(s).seconds == 0
    ensures Deny(s).log == s.log + [Denied, Locked] <==> s.tries + 1 == LOCK_TRIES
  {
  }

  // Enrolment.

  /** The master card, seen in the poll block, flips enrolment mode and ends
      the pass: nothing else the user can observe changes. */
  lemma MasterCardFlips(s: State, inp: Input)
    requires WellFormed(s.mem) && s.tries < LOCK_TRIES && inp.pollDue && s.nfc && inp.card == Some(s.masterId)
    ensures LoopStep(s, inp).masterAccess == !s.masterAccess
    ensures LoopStep(s, inp).mem == s.mem && LoopStep(s, inp).tries == s.tries
    ensures LoopStep(s, inp).password == s.password && LoopStep(s, inp).barcode == s.barcode
  {
  }

  /** With the card reader switched off, enrolment mode can neither be entered nor left. */
  lemma EnrolmentNeedsReader(s: State, inp: Input)
    requires WellFormed(s.mem) && !s.nfc
    ensures LoopStep(s, inp).masterAccess == s.masterAccess
  {
  }

  /** In enrolment mode the keypad and the scanner are not read and nobody is
      granted or refused: the only change to the store is addDeleteCard of the
      card just read, and only while the registry has room. */
  lemma EnrolmentOnlyToggles(s: State, inp: Input)
    requires WellFormed(s.mem) && s.tries < LOCK_TRIES && s.masterAccess && !MasterSeen(s, inp)
    ensures LoopStep(s, inp).tries == s.tries && LoopStep(s, inp).masterAccess
    ensures LoopStep(s, inp).password == s.password && LoopStep(s, inp).barcode == s.barcode
    ensures LoopStep(s, inp).mem == s.mem ||
            (Count(s.mem) < MAX_CARDS && Poll(s, inp).uid.Some? && Poll(s, inp).uid.value != s.masterId &&
             LoopStep(s, inp).mem == Toggle(s.mem, Poll(s, inp).uid.value))
    ensures Count(s.mem) == MAX_CARDS ==> LoopStep(s, inp).mem == s.mem
    ensures Granted !in LoopStep(s, inp).log[|s.log|..] && Denied !in LoopStep(s, inp).log[|s.log|..]
  {
    var r := LoopStep(s, inp);
    var p := Poll(s, inp);
    if p.uid.Some? && p.uid.value != s.masterId && Count(s.mem) < MAX_CARDS {
      assert r.log[|s.log|..] == [if p.uid.value in Registry(s.mem) then CardDeleted else CardAdded];
    } else {
      assert r.log[|s.log|..] == [];
    }
  }

  // The barcode.

  /** A duplicate-free registry holds a present card exactly once. */
  lemma {:induction false} MatchesUnique(cs: seq<Card>, c: Card)
    requires NoDuplicates(cs) && c in cs
    ensures Matches(cs, c) == 1
  {
    var i :| 0 <= i < |cs| && cs[i] == c;
    var before, after := cs[..i], cs[i + 1..];
    assert cs == before + [c] + after;
    assert c !in before by {
      forall j | 0 <= j < i
        ensures before[j] != c
      {
        assert before[j] == cs[j];
      }
    }
    assert c !in after by {
      forall j | 0 <= j < |after|
        ensures after[j] != c
      {
        assert after[j] == cs[i + 1 + j];
      }
    }
    OccursOnce(before, c, after);
  }

  /** An element absent from both sides occurs once between them. */
  lemma OccursOnce(before: seq<Card>, c: Card, after: seq<Card>)
    requires c !in before && c !in after
    ensures multiset(before + [c] + after)[c] == 1
  {
    assert multiset(before)[c] == 0 && multiset(after)[c] == 0;
  }

  /** barcodeCheck's three outcomes: an empty barcode is refused; a barcode
      whose card is not registered changes nothing (no outcome, and the
      barcode is kept, so the next scanned bytes are appended to it); a
      registered card opens the door, once per matching entry. */
  lemma BarcodeOutcome(s: State)
    requires WellFormed(s.mem)
    ensures s.barcode == [] ==> BarcodeCheck(s) == Deny(s)
    ensures s.barcode != [] && ParseQuad(DecimalQuad(s.barcode)) !in Registry(s.mem) ==> BarcodeCheck(s) == s
    ensures s.barcode != [] && ParseQuad(DecimalQuad(s.barcode)) in Registry(s.mem) ==>
              BarcodeCheck(s).tries == 0 && BarcodeCheck(s).barcode == [] && BarcodeCheck(s).log[|s.log|] == Granted
    ensures s.barcode != [] && ParseQuad(DecimalQuad(s.barcode)) in Registry(s.mem) && NoDuplicates(Registry(s.mem)) ==>
              BarcodeCheck(s) == Grant(s)
  {
    if s.barcode != [] {
      var c := ParseQuad(DecimalQuad(s.barcode));
      var cs := Registry(s.mem);
      if c in cs {
        assert multiset(cs)[c] > 0;
        if NoDuplicates(cs) {
          MatchesUnique(cs, c);
          assert Repeat(Granted, 1) == [Granted];
        }
      }
    }
  }

  /** In a reachable state a barcode whose card is registered opens the door
      exactly once: the registry holds no duplicates. */
  lemma BarcodeGrantsOnce(s: State)
    requires Inv(s) && s.barcode != [] && ParseQuad(DecimalQuad(s.barcode)) in Registry(s.mem)
    ensures BarcodeCheck(s) == Grant(s)
  {
    BarcodeOutcome(s);
  }

  // The keypad.

  /** 'O' opens the door exactly when the buffer is the stored code: at most
      8 non-zero bytes held from PINCODE on and followed by a zero unless all
      8 are used; otherwise it is a denial. */
  lemma KeypadDecision(s: State)
    requires |s.mem| == EEPROM_SIZE
    ensures KeyPress(s, CHAR_O).log[|s.log|] == Granted <==>
              |s.password| <= CODE_BYTES && NoZero(s.password) &&
              s.password == s.mem[PINCODE..PINCODE + |s.password|] &&
              (|s.password| < CODE_BYTES ==> s.mem[PINCODE + |s.password|] == 0)
    ensures KeyPress(s, CHAR_O) == Grant(s) || KeyPress(s, CHAR_O) == Deny(s)
  {
    CheckPassExactly(s.mem, s.password);
  }

  /** A card the reader answers with opens the door exactly when it is
      registered; any other card is a denial, and the third one starts the lockout. */
  lemma CardDecision(s: State, c: Card)
    requires WellFormed(s.mem)
    ensures CardCheck(s, c).log == s.log + [Granted] <==> c in Registry(s.mem)
    ensures c !in Registry(s.mem) ==>
              CardCheck(s, c).log == s.log + [Denied] || CardCheck(s, c).log == s.log + [Denied, Locked]
  {
    if c !in Registry(s.mem) {
      assert CardCheck(s, c).log[|s.log|] == Denied;
    }
  }

  /** The keypad buffer only ever holds digits, and a full buffer of nine
      digits can never match: checkPass reads at most eight bytes. */
  lemma KeypadBuffer(s: State, inp: Input)
    requires WellFormed(s.mem) && AllDigits(s.password)
    ensures AllDigits(LoopStep(s, inp).password)
    ensures |s.password| == PASSWORD_LIMIT ==> !CheckPass(s.mem, s.password)
  {
    var r := LoopStep(s, inp);
    if s.tries < LOCK_TRIES {
      var p := Poll(s, inp);
      if MasterSeen(s, inp) {
        assert r.password == s.password;
      } else if p.masterAccess {
        assert r.password == s.password;
      } else {
        assert r == UserPass(p, inp);
      }
    } else {
      assert r.password == s.password;
    }
  }

  /** Switching the scanner off from the web page writes 0 into the first code
      byte: an empty keypad submission then opens the door. */
  lemma ScannerOffOpensDoor(s: State)
    requires |s.mem| == EEPROM_SIZE && s.scanner && s.password == []
    ensures KeyPress(ToggleScannerStep(s, true), CHAR_O) == Grant(ToggleScannerStep(s, true))
  {
    ScannerOffEmptiesCode(s.mem);
  }

  /** Switching the scanner on writes 1 into the first code byte: no code of
      digits opens the door any more. */
  lemma ScannerOnLocksKeypad(s: State)
    requires |s.mem| == EEPROM_SIZE && !s.scanner && AllDigits(s.password)
    ensures KeyPress(ToggleScannerStep(s, true), CHAR_O) == Deny(ToggleScannerStep(s, true))
  {
    ScannerOnBreaksCode(s.mem);
  }

  // The web handlers.

  /** changePass, changePin and changeLockTime give the same result whether or
      not the request is authorised; the toggles and del refuse an
      unauthorised request. */
  lemma Authorisation(s: State, arg: Option<seq<byte>>)
    requires WellFormed(s.mem)
    ensures ChangePassStep(s, false, arg) == ChangePassStep(s, true, arg)
    ensures ChangePinStep(s, false, arg) == ChangePinStep(s, true, arg)
    ensures ChangeLockTimeStep(s, false, arg) == ChangeLockTimeStep(s, true, arg)
    ensures ToggleNfcStep(s, false) == s && ToggleKeypadStep(s, false) == s
    ensures ToggleScannerStep(s, false) == s && DeleteStep(s, false, arg) == s
  {
  }

  /** A flag toggled twice is back where it was, provided its byte held the
      canonical 0 or 1 for the flag. */
  lemma ToggleTwiceRestores(s: State)
    requires |s.mem| == EEPROM_SIZE
    ensures s.mem[NFCENABLED] == FlagByte(s.nfc) ==> ToggleNfcStep(ToggleNfcStep(s, true), true) == s
    ensures s.mem[PASSENABLED] == FlagByte(s.keypad) ==> ToggleKeypadStep(ToggleKeypadStep(s, true), true) == s
    ensures s.mem[SCANNERENABLED] == FlagByte(s.scanner) ==> ToggleScannerStep(ToggleScannerStep(s, true), true) == s
  {
    if s.mem[NFCENABLED] == FlagByte(s.nfc) {
      assert s.mem[NFCENABLED := FlagByte(!s.nfc)][NFCENABLED := FlagByte(s.nfc)] == s.mem;
    }
    if s.mem[PASSENABLED] == FlagByte(s.keypad) {
      assert s.mem[PASSENABLED := FlagByte(!s.keypad)][PASSENABLED := FlagByte(s.keypad)] == s.mem;
    }
    if s.mem[SCANNERENABLED] == FlagByte(s.scanner) {
      assert s.mem[SCANNERENABLED := FlagByte(!s.scanner)][SCANNERENABLED := FlagByte(s.scanner)] == s.mem;
    }
  }

  /** Toggling the scanner off and on again while a digit code is stored
      replaces the code's first digit by the byte 1. */
  lemma ScannerToggleTwiceBreaksCode(s: State)
    requires |s.mem| == EEPROM_SIZE && s.scanner && IsDigit(s.mem[PINCODE])
    ensures ToggleScannerStep(ToggleScannerStep(s, true), true).scanner
    ensures ToggleScannerStep(ToggleScannerStep(s, true), true).mem == s.mem[PINCODE := 1]
  {
    assert s.mem[SCANNERENABLED := 0][SCANNERENABLED := 1] == s.mem[PINCODE := 1];
  }

  /** changeLockTime: a rejected text changes neither the stored byte nor the
      lock time; an accepted one sets both to the number modulo 256. */
  lemma LockTimeUpdate(s: State, authorized: bool, p: seq<byte>)
    requires |s.mem| == EEPROM_SIZE
    ensures !(0 < |p| < LOCKTIME_LIMIT && AllDigits(p)) ==> ChangeLockTimeStep(s, authorized, Some(p)) == s
    ensures 0 < |p| < LOCKTIME_LIMIT && AllDigits(p) ==>
              ChangeLockTimeStep(s, authorized, Some(p)).locktime as nat == DigitsValue(p) % 256 &&
              ChangeLockTimeStep(s, authorized, Some(p)).mem == s.mem[LOCKTIME := (DigitsValue(p) % 256) as byte]
  {
  }

  // Start-up.

  /** Start-up establishes the invariant, whenever the store it starts from is
      well formed or the reset button is held. */
  lemma BootInv(image: seq<byte>, reset: bool, master: Card, keys: seq<byte>)
    requires |image| == EEPROM_SIZE && (reset || (WellFormed(image) && NoDuplicates(Registry(image))))
    ensures Inv(BootState(image, reset, master, keys))
  {
    var m := if reset then DefaultImage() else image;
    DefaultImageFacts();
    assert NoDuplicates(Registry(m));
    if m[FIRSTRUN] == 1 {
      FirstRunRegistry(m, master, FirstRunPin([], keys));
    }
  }

  /** The first-run configuration writes below the count byte, so the registry is kept. */
  lemma FirstRunRegistry(m: seq<byte>, master: Card, pin: seq<byte>)
    requires WellFormed(m) && |pin| <= TEXT_LIMIT
    ensures WellFormed(FirstRunImage(m, master, pin))
    ensures Registry(FirstRunImage(m, master, pin)) == Registry(m)
  {
    var w := WriteText(m, MASTERCARDID, master);
    assert forall k :: USERCARDSCOUNT <= k < EEPROM_SIZE ==> w[k] == m[k];
    SameRegistry(m, FirstRunImage(m, master, pin));
  }

  /** After a reset, a first-run code of one to eight digits becomes the stored
      code and the master card is stored intact; the registry is empty and the
      three features are on. */
  lemma ResetThenFirstRun(image: seq<byte>, master: Card, keys: seq<byte>)
    requires |image| == EEPROM_SIZE
    requires 0 < |FirstRunPin([], keys)| <= CODE_BYTES
    ensures CheckPass(BootState(image, true, master, keys).mem, FirstRunPin([], keys))
    ensures BootState(image, true, master, keys).masterId == master
    ensures Count(BootState(image, true, master, keys).mem) == 0
    ensures BootState(image, true, master, keys).nfc && BootState(image, true, master, keys).keypad
    ensures BootState(image, true, master, keys).scanner
    ensures BootState(image, true, master, keys).locktime == LOCKTIME_DEFAULT
  {
    var pin := FirstRunPin([], keys);
    var d := DefaultImage();
    DefaultImageFacts();
    var m := FirstRunImage(d, master, pin);
    ResetImage(image, master, keys);
    FirstRunOverlap(d, master, pin);
    assert NoZero(pin) by {
      forall k | 0 <= k < |pin|
        ensures pin[k] != 0
      {
        assert IsDigit(pin[k]);
      }
    }
    assert m[PINCODE] == pin[0];
    if |pin| < CODE_BYTES {
      assert m[PINCODE + |pin|] == d[PINCODE + |pin|];
    }
    CheckPassExactly(m, pin);
  }

  /** After a reset, a nine-digit first-run code overwrites the first byte of the
      master card with its last digit, so the master card read back at start-up
      is not the card presented, and the code itself is never accepted. */
  lemma ResetThenNineDigits(image: seq<byte>, master: Card, keys: seq<byte>)
    requires |image| == EEPROM_SIZE && |FirstRunPin([], keys)| == PASSWORD_LIMIT
    ensures BootState(image, true, master, keys).masterId == [FirstRunPin([], keys)[8]] + master[1..]
    ensures master[0] != FirstRunPin([], keys)[8] ==> BootState(image, true, master, keys).masterId != master
    ensures !CheckPass(BootState(image, true, master, keys).mem, FirstRunPin([], keys))
    ensures CheckPass(BootState(image, true, master, keys).mem, FirstRunPin([], keys)[..CODE_BYTES])
  {
    var pin := FirstRunPin([], keys);
    var m := FirstRunImage(DefaultImage(), master, pin);
    ResetImage(image, master, keys);
    FirstRunOverlap(DefaultImage(), master, pin);
    assert NoZero(pin) by {
      forall k | 0 <= k < |pin|
        ensures pin[k] != 0
      {
        assert IsDigit(pin[k]);
      }
    }
    FirstRunFirstEight(DefaultImage(), master, pin);
    var mid := m[MASTERCARDID..MASTERCARDID + CARDSIZE];
    assert mid[0] == pin[8];
    assert mid[1..] == m[MASTERCARDID + 1..MASTERCARDID + CARDSIZE];
    ConsEquals(pin[8], master[1..], mid);
  }

  /** After a reset the store is the factory image with the first-run bytes written. */
  lemma ResetImage(image: seq<byte>, master: Card, keys: seq<byte>)
    requires |image| == EEPROM_SIZE && |FirstRunPin([], keys)| <= PASSWORD_LIMIT
    ensures BootImage(image, true, master, keys) == FirstRunImage(DefaultImage(), master, FirstRunPin([], keys))
    ensures BootState(image, true, master, keys).mem == BootImage(image, true, master, keys)
  {
    DefaultImageFacts();
  }

  /** After a reset with an empty first-run code the stored code stays the byte
      1, so no keypad code can ever open the door. */
  lemma ResetThenEmptyCode(image: seq<byte>, master: Card, keys: seq<byte>)
    requires |image| == EEPROM_SIZE && FirstRunPin([], keys) == []
    ensures forall p :: AllDigits(p) ==> !CheckPass(BootState(image, true, master, keys).mem, p)
  {
    DefaultImageFacts();
    ResetImage(image, master, keys);
    var d := DefaultImage();
    var m := FirstRunImage(d, master, []);
    assert m[PINCODE..PINCODE + CODE_BYTES] == d[PINCODE..PINCODE + CODE_BYTES] by {
      var w := WriteText(d, MASTERCARDID, master);
      assert WriteText(w, PINCODE, []) == w;
      assert m == w[FIRSTRUN := 0];
      forall k | PINCODE <= k < PINCODE + CODE_BYTES
        ensures m[k] == d[k]
      {
        assert m[k] == w[k];
      }
    }
    CodeFromSame(m, d, 0);
  }
}
