/** The controller as a state machine over values: the store image, the
    feature flags and the globals the main loop and the web handlers update.
    The class in the controller module is proved to follow these functions. */
module Machine {
  import opened Layout
  import opened Text
  import opened CardRegistry
  import opened Barcode
  import opened Config

  /** accessDenied starts the lockout when the failure count reaches this. */
  const LOCK_TRIES: nat := 3
  /** The lock time is kept in minutes and counted in seconds. */
  const SECONDS_PER_MINUTE: nat := 60
  /** The keypad buffer takes digits while it is shorter than this. */
  const PASSWORD_LIMIT: nat := 9

  /** What the controller shows or drives: the door output and the LCD messages
      that mark a decision. */
  datatype Event =
    | Granted        // OUT pulled high: "ACCESS GRANTED"
    | Denied         // "ACCESS DENIED"
    | Locked         // "LOCKED": the third failure
    | Unlocked       // lock time elapsed: "ENTER PASS:"
    | EnrolmentOn    // master card: "Scan card to add or delete"
    | EnrolmentOff   // master card again: "EXITING...."
    | CardAdded
    | CardDeleted

  /** The store image, cfg[0..2], and the globals of the controller. uid is
      Some(card) exactly when uidLen is non-zero. */
  datatype State = State(
    mem: seq<byte>,
    nfc: bool, keypad: bool, scanner: bool,
    tries: nat, locktime: byte, seconds: nat,
    masterAccess: bool, masterId: Card, uid: Option<Card>,
    password: seq<byte>, barcode: seq<byte>,
    log: seq<Event>)

  /** What one pass of loop sees: whether the card poll is due (500 ms since the
      last one), the card the reader answers with, the pending keypad byte, the
      pending scanner byte, and whether a second has passed on the lockout timer. */
  datatype Input = Input(pollDue: bool, card: Option<Card>, key: Option<byte>, scan: Option<byte>, tick: bool)

  /** The invariant every reachable state keeps: at most 120 cards, none
      registered twice, a bounded failure count and keypad buffer. */
  predicate Inv(s: State)
  {
    WellFormed(s.mem) && NoDuplicates(Registry(s.mem)) && s.tries <= LOCK_TRIES + 2 && |s.password| <= PASSWORD_LIMIT
  }

  /** accessGranted: the door opens and every counter and buffer is reset. */
  function Grant(s: State): (r: State)
    ensures r.tries == 0 && r.seconds == 0 && r.password == [] && r.barcode == []
    ensures r.log == s.log + [Granted]
    ensures r.mem == s.mem && r.masterAccess == s.masterAccess && r.uid == s.uid
  {
    s.(tries := 0, seconds := 0, password := [], barcode := [], log := s.log + [Granted])
  }

  /** accessDenied: the buffers are cleared, the card answer dropped and the
      uint8_t failure count incremented; reaching 3 starts the lockout. */
  function Deny(s: State): (r: State)
    ensures s.tries < 255 ==> r.tries == s.tries + 1
    ensures r.seconds == 0 && r.password == [] && r.barcode == [] && r.uid == None
    ensures r.log == s.log + [Denied] || r.log == s.log + [Denied, Locked]
    ensures r.mem == s.mem && r.masterAccess == s.masterAccess
  {
    var t := (s.tries + 1) % 256;
    s.(tries := t, seconds := 0, password := [], barcode := [], uid := None,
       log := s.log + (if t == LOCK_TRIES then [Denied, Locked] else [Denied]))
  }

  /** One keypad byte applied to the buffer: a digit is appended while the
      buffer holds fewer than 9, 'C' drops the last byte, anything else is ignored. */
  function EditPassword(pw: seq<byte>, c: byte): (r: seq<byte>)
    ensures |pw| <= PASSWORD_LIMIT ==> |r| <= PASSWORD_LIMIT
    ensures AllDigits(pw) ==> AllDigits(r)
    ensures r == pw || r == pw + [c] || (pw != [] && r == pw[..|pw| - 1])
  {
    if IsDigit(c) && |pw| < PASSWORD_LIMIT then pw + [c]
    else if c == CHAR_C then (if pw == [] then [] else pw[..|pw| - 1])
    else pw
  }

  /** The keypad branch of loop: 'O' submits the buffer to checkPass. */
  function KeyPress(s: State, c: byte): (r: State)
    requires |s.mem| == EEPROM_SIZE
    ensures c == CHAR_O && CheckPass(s.mem, s.password) ==> r == Grant(s)
    ensures c == CHAR_O && !CheckPass(s.mem, s.password) ==> r == Deny(s)
    ensures c != CHAR_O ==> r == s.(password := EditPassword(s.password, c))
    ensures r.mem == s.mem && r.masterAccess == s.masterAccess
    ensures s.tries < 255 ==> r.tries <= s.tries + 1
    ensures |s.password| <= PASSWORD_LIMIT ==> |r.password| <= PASSWORD_LIMIT
    ensures AllDigits(s.password) ==> AllDigits(r.password)
  {
    if c == CHAR_O then (if CheckPass(s.mem, s.password) then Grant(s) else Deny(s))
    else s.(password := EditPassword(s.password, c))
  }

  /** The card branch of loop: findCard (which drops the answer), then the outcome. */
  function CardCheck(s: State, c: Card): (r: State)
    requires WellFormed(s.mem)
    ensures c in Registry(s.mem) ==> r == Grant(s.(uid := None))
    ensures c !in Registry(s.mem) ==> r == Deny(s.(uid := None))
    ensures r.mem == s.mem && r.masterAccess == s.masterAccess && r.uid == None
    ensures c in Registry(s.mem) ==> r.tries == 0
    ensures c !in Registry(s.mem) && s.tries < 255 ==> r.tries == s.tries + 1
    ensures |s.password| <= PASSWORD_LIMIT ==> |r.password| <= PASSWORD_LIMIT
    ensures AllDigits(s.password) ==> AllDigits(r.password)
  {
    if FindCard(s.mem, c) then Grant(s.(uid := None)) else Deny(s.(uid := None))
  }

  /** k copies of e. */
  function Repeat(e: Event, k: nat): (r: seq<Event>)
    ensures |r| == k && forall i :: 0 <= i < k ==> r[i] == e
  {
    if k == 0 then [] else Repeat(e, k - 1) + [e]
  }

  /** Number of entries of cs equal to c. */
  function Matches(cs: seq<Card>, c: Card): (n: nat)
    ensures n == multiset(cs)[c]
  {
    if cs == [] then 0
    else
      assert cs == cs[..|cs| - 1] + [cs[|cs| - 1]];
      Matches(cs[..|cs| - 1], c) + (if cs[|cs| - 1] == c then 1 else 0)
  }

  /** accessGranted called k times in a row: one door pulse per call. */
  function GrantTimes(s: State, k: nat): (r: State)
    ensures k == 0 ==> r == s
    ensures k > 0 ==> r.tries == 0 && r.seconds == 0 && r.password == [] && r.barcode == []
    ensures r.mem == s.mem && r.masterAccess == s.masterAccess && r.uid == s.uid
    ensures r.log == s.log + Repeat(Granted, k)
  {
    if k == 0 then s else Grant(s).(log := s.log + Repeat(Granted, k))
  }

  /** Counting over one more entry. */
  lemma MatchesStep(cs: seq<Card>, i: nat, c: Card)
    requires i < |cs|
    ensures Matches(cs[..i + 1], c) == Matches(cs[..i], c) + (if cs[i] == c then 1 else 0)
  {
    assert cs[..i + 1][..i] == cs[..i];
  }

  /** One more accessGranted after k of them is k + 1 of them. */
  lemma GrantTimesStep(s: State, k: nat)
    ensures Grant(GrantTimes(s, k)) == GrantTimes(s, k + 1)
  {
    assert Repeat(Granted, k + 1) == Repeat(Granted, k) + [Granted];
  }

  /** barcodeCheck: an empty barcode is refused; otherwise h2i's output is parsed
      and every registry entry equal to it grants access once. A non-empty
      barcode that matches nothing has no effect at all. */
  function BarcodeCheck(s: State): (r: State)
    requires WellFormed(s.mem)
    ensures r.mem == s.mem && r.masterAccess == s.masterAccess
    ensures s.tries < 255 ==> r.tries <= s.tries + 1
    ensures |s.password| <= PASSWORD_LIMIT ==> |r.password| <= PASSWORD_LIMIT
    ensures AllDigits(s.password) ==> AllDigits(r.password)
  {
    if s.barcode == [] then Deny(s)
    else GrantTimes(s, Matches(Registry(s.mem), ParseQuad(DecimalQuad(s.barcode))))
  }

  /** The scanner branch of loop: a carriage return runs barcodeCheck, any other
      byte is appended to the barcode. */
  function ScanByte(s: State, b: byte): (r: State)
    requires WellFormed(s.mem)
    ensures r.mem == s.mem && r.masterAccess == s.masterAccess
    ensures s.tries < 255 ==> r.tries <= s.tries + 1
    ensures |s.password| <= PASSWORD_LIMIT ==> |r.password| <= PASSWORD_LIMIT
    ensures AllDigits(s.password) ==> AllDigits(r.password)
  {
    if b == CR then BarcodeCheck(s) else s.(barcode := s.barcode + [b])
  }

  /** Enrolment: addDeleteCard toggles the card and drops the answer. */
  function AddDelete(s: State, c: Card): (r: State)
    requires WellFormed(s.mem) && Count(s.mem) < MAX_CARDS
    ensures WellFormed(r.mem)
  {
    ToggleRegistry(s.mem, c);
    var removed := c in Registry(s.mem);
    s.(mem := Toggle(s.mem, c), uid := None, log := s.log + [if removed then CardDeleted else CardAdded])
  }

  /** The card poll: readPassiveTargetID only stores an answer when a card replies. */
  function Poll(s: State, inp: Input): (r: State)
  {
    if inp.pollDue && s.nfc && inp.card.Some? then s.(uid := inp.card) else s
  }

  /** Whether this pass sees the master card in the poll block. */
  predicate MasterSeen(s: State, inp: Input)
  {
    inp.pollDue && s.nfc && Poll(s, inp).uid == Some(s.masterId)
  }

  /** One lockout pass: count a second on a tick; once the count reaches the
      lock time in seconds the failure count and the counter are reset. */
  function LockoutPass(s: State, tick: bool): (r: State)
  {
    var secs := if tick then s.seconds + 1 else s.seconds;
    if secs >= s.locktime as nat * SECONDS_PER_MINUTE then s.(tries := 0, seconds := 0, log := s.log + [Unlocked])
    else s.(seconds := secs)
  }

  /** The user side of a normal pass: card, keypad and scanner in that order,
      each only when its feature flag is set; the answer is dropped at the end. */
  function UserPass(p: State, inp: Input): (r: State)
    requires WellFormed(p.mem)
    ensures r.mem == p.mem && r.masterAccess == p.masterAccess && r.uid == None
    ensures p.tries < 253 ==> r.tries <= p.tries + 3
    ensures |p.password| <= PASSWORD_LIMIT ==> |r.password| <= PASSWORD_LIMIT
    ensures AllDigits(p.password) ==> AllDigits(r.password)
  {
    ScanStage(KeyStage(CardStage(p), inp.key), inp.scan).(uid := None)
  }

  /** The card block of loop: runs when the reader is enabled and a card answered. */
  function CardStage(s: State): (r: State)
    requires WellFormed(s.mem)
    ensures r.mem == s.mem && r.masterAccess == s.masterAccess
    ensures s.tries < 255 ==> r.tries <= s.tries + 1
    ensures |s.password| <= PASSWORD_LIMIT ==> |r.password| <= PASSWORD_LIMIT
    ensures AllDigits(s.password) ==> AllDigits(r.password)
  {
    if s.nfc && s.uid.Some? then CardCheck(s, s.uid.value) else s
  }

  /** The keypad block of loop: runs when the keypad is enabled and a key was read. */
  function KeyStage(s: State, key: Option<byte>): (r: State)
    requires WellFormed(s.mem)
    ensures r.mem == s.mem && r.masterAccess == s.masterAccess
    ensures s.tries < 255 ==> r.tries <= s.tries + 1
    ensures |s.password| <= PASSWORD_LIMIT ==> |r.password| <= PASSWORD_LIMIT
    ensures AllDigits(s.password) ==> AllDigits(r.password)
  {
    if s.keypad && key.Some? then KeyPress(s, key.value) else s
  }

  /** The scanner block of loop: runs when the scanner is enabled and a byte arrived. */
  function ScanStage(s: State, scan: Option<byte>): (r: State)
    requires WellFormed(s.mem)
    ensures r.mem == s.mem && r.masterAccess == s.masterAccess
    ensures s.tries < 255 ==> r.tries <= s.tries + 1
    ensures |s.password| <= PASSWORD_LIMIT ==> |r.password| <= PASSWORD_LIMIT
    ensures AllDigits(s.password) ==> AllDigits(r.password)
  {
    if s.scanner && scan.Some? then ScanByte(s, scan.value) else s
  }

  /** One pass of loop. Below 3 failures the card poll, enrolment and the user
      side run; at 3 or more failures only the lockout timer runs. */
  function LoopStep(s: State, inp: Input): (r: State)
    requires WellFormed(s.mem)
    ensures WellFormed(r.mem)
  {
    if s.tries < LOCK_TRIES then ActivePass(s, inp)
    else LockoutPass(s, inp.tick).(uid := None)
  }

  /** A pass below 3 failures: the master card flips enrolment and ends the
      pass; in enrolment nothing but the card answer is looked at (the pass
      returns before uidLen is cleared); otherwise the user side runs. */
  function ActivePass(s: State, inp: Input): (r: State)
    requires WellFormed(s.mem)
    ensures WellFormed(r.mem)
  {
    var p := Poll(s, inp);
    if MasterSeen(s, inp) then
      p.(masterAccess := !s.masterAccess, uid := None,
         log := s.log + [if s.masterAccess then EnrolmentOff else EnrolmentOn])
    else if p.masterAccess then Enrol(p)
    else UserPass(p, inp)
  }

  /** Enrolment mode: a card other than the master card is toggled while the
      registry has room; otherwise nothing happens. */
  function Enrol(p: State): (r: State)
    requires WellFormed(p.mem)
    ensures WellFormed(r.mem)
  {
    if p.uid.Some? && p.uid.value != p.masterId && Count(p.mem) < MAX_CARDS then AddDelete(p, p.uid.value)
    else p
  }

  // The web handlers. `authorized` is what auth() would answer for the request.

  /** changePass. The handler tests the address of auth instead of calling it,
      so `authorized` has no effect. */
  function ChangePassStep(s: State, authorized: bool, arg: Option<seq<byte>>): (r: State)
    requires |s.mem| == EEPROM_SIZE
  {
    if arg.Some? then s.(mem := PassUpdate(s.mem, arg.value)) else s
  }

  /** changePin, with the same ineffective authorisation test. */
  function ChangePinStep(s: State, authorized: bool, arg: Option<seq<byte>>): (r: State)
    requires |s.mem| == EEPROM_SIZE
  {
    if arg.Some? then s.(mem := PinUpdate(s.mem, arg.value)) else s
  }

  /** changeLockTime, with the same ineffective authorisation test: an accepted
      text sets both the stored byte and the lock time in RAM. */
  function ChangeLockTimeStep(s: State, authorized: bool, arg: Option<seq<byte>>): (r: State)
    requires |s.mem| == EEPROM_SIZE
  {
    if arg.Some? && LockTimeValue(arg.value).Some? then
      var v := LockTimeValue(arg.value).value;
      s.(mem := s.mem[LOCKTIME := v], locktime := v)
    else s
  }

  /** The byte a feature flag is persisted as. */
  function FlagByte(b: bool): byte
  {
    if b then 1 else 0
  }

  /** toggleNFC: an authorised request flips cfg[0] and persists it. */
  function ToggleNfcStep(s: State, authorized: bool): (r: State)
    requires |s.mem| == EEPROM_SIZE
  {
    if authorized then s.(nfc := !s.nfc, mem := s.mem[NFCENABLED := FlagByte(!s.nfc)]) else s
  }

  /** togglePIN: an authorised request flips cfg[1] and persists it. */
  function ToggleKeypadStep(s: State, authorized: bool): (r: State)
    requires |s.mem| == EEPROM_SIZE
  {
    if authorized then s.(keypad := !s.keypad, mem := s.mem[PASSENABLED := FlagByte(!s.keypad)]) else s
  }

  /** toggleScanner: an authorised request flips cfg[2] and persists it at the
      address it shares with the first code byte. */
  function ToggleScannerStep(s: State, authorized: bool): (r: State)
    requires |s.mem| == EEPROM_SIZE
  {
    if authorized then s.(scanner := !s.scanner, mem := s.mem[SCANNERENABLED := FlagByte(!s.scanner)]) else s
  }

  /** del: an authorised request with an ID removes the first entry equal to the parsed card. */
  function DeleteStep(s: State, authorized: bool, arg: Option<seq<byte>>): (r: State)
    requires WellFormed(s.mem)
  {
    if authorized && arg.Some? then s.(mem := Delete(s.mem, ParseQuad(arg.value))) else s
  }

  // Start-up.

  /** The code the first-run keypad loop collects: bytes are applied to the
      buffer until 'O' ends the entry. */
  function FirstRunPin(pw: seq<byte>, keys: seq<byte>): (r: seq<byte>)
    ensures |pw| <= PASSWORD_LIMIT ==> |r| <= PASSWORD_LIMIT
    ensures AllDigits(pw) ==> AllDigits(r)
    decreases |keys|
  {
    if keys == [] || keys[0] == CHAR_O then pw
    else FirstRunPin(EditPassword(pw, keys[0]), keys[1..])
  }

  /** The store after the reset button check and the first-run configuration. */
  function BootImage(image: seq<byte>, reset: bool, master: Card, keys: seq<byte>): (r: seq<byte>)
    requires |image| == EEPROM_SIZE
    ensures |r| == EEPROM_SIZE
  {
    var m := if reset then DefaultImage() else image;
    if m[FIRSTRUN] == 1 then FirstRunImage(m, master, FirstRunPin([], keys)) else m
  }

  /** The state setup leaves over the store m: the flags, lock time and master
      card read back from m, every counter and buffer at its initial value. */
  function Loaded(m: seq<byte>): (r: State)
    requires |m| == EEPROM_SIZE
  {
    State(m, m[NFCENABLED] != 0, m[PASSENABLED] != 0, m[SCANNERENABLED] != 0,
          0, m[LOCKTIME], 0, false, m[MASTERCARDID..MASTERCARDID + CARDSIZE], None, [], [], [])
  }

  /** setup: the store is prepared, then read back. */
  function BootState(image: seq<byte>, reset: bool, master: Card, keys: seq<byte>): (r: State)
    requires |image| == EEPROM_SIZE
  {
    Loaded(BootImage(image, reset, master, keys))
  }
}
