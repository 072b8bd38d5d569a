/** The controller as the firmware holds it: the emulated EEPROM as a 512-byte
    array, cfg[] as a three-element array, and the globals as fields that the
    main loop, the web handlers and setup update in place. Every method is
    proved to move the controller exactly as the matching function of the
    Machine module moves its State value. */
module Controller {
  import opened Layout
  import opened Text
  import opened CardRegistry
  import opened Barcode
  import opened Config
  import opened Machine
  import Properties

  class Lock {
    /** The emulated EEPROM (EEPROM.begin(512)). */
    const mem: array<byte>
    /** cfg[0], cfg[1], cfg[2]: card reader, keypad and barcode scanner enabled. */
    const cfg: array<bool>
    /** Failed attempts since the last success (uint8_t tries). */
    var tries: nat
    /** Lock time in minutes. */
    var locktime: byte
    /** retryTimerSeconds: seconds counted during a lockout. */
    var retrySeconds: nat
    /** MasterAccess: enrolment mode. */
    var masterAccess: bool
    /** MasterID. */
    var masterId: Card
    /** uid with uidLen: Some(card) while uidLen is non-zero. */
    var uid: Option<Card>
    /** The keypad buffer. */
    var password: seq<byte>
    /** The barcode buffer. */
    var barcode: seq<byte>
    /** The decisions shown so far. */
    var log: seq<Event>

    predicate Sized()
    {
      mem.Length == EEPROM_SIZE && cfg.Length == 3
    }

    /** The controller as a Machine state. */
    function Snapshot(): State
      reads this, mem, cfg
      requires Sized()
    {
      State(mem[..], cfg[0], cfg[1], cfg[2], tries, locktime, retrySeconds,
            masterAccess, masterId, uid, password, barcode, log)
    }

    predicate Valid()
      reads this, mem, cfg
    {
      Sized() && Inv(Snapshot())
    }

    // Store access.

    /** EEPROM.put of the bytes of p from address at on, one byte per pass. */
    method WriteBytes(at: nat, p: seq<byte>)
      requires Sized() && at + |p| <= EEPROM_SIZE
      modifies mem
      ensures mem[..] == WriteText(old(mem[..]), at, p)
    {
      var i := 0;
      while i < |p|
        invariant 0 <= i <= |p|
        invariant mem[..] == WriteText(old(mem[..]), at, p[..i])
      {
        mem[at + i] := p[i];
        assert p[..i + 1] == p[..i] + [p[i]];
        i := i + 1;
      }
      assert p[..|p|] == p;
    }

    /** The loop that copies the registry into a local card array. */
    method ReadCards() returns (cards: seq<Card>)
      requires Sized() && WellFormed(mem[..])
      ensures cards == Registry(mem[..])
    {
      var count := mem[USERCARDSCOUNT] as nat;
      cards := [];
      var i := 0;
      while i < count
        invariant 0 <= i <= count
        invariant cards == Registry(mem[..])[..i]
      {
        var card: seq<byte> := [];
        var j := 0;
        while j < CARDSIZE
          invariant 0 <= j <= CARDSIZE
          invariant card == mem[SlotAddr(i)..SlotAddr(i) + j]
        {
          card := card + [mem[SlotAddr(i) + j]];
          j := j + 1;
        }
        cards := cards + [card];
        i := i + 1;
      }
    }

    /** The search loop over the local card array: stops at the first entry arrcmp accepts. */
    method FindSlot(cards: seq<Card>, a: Card) returns (found: bool, i: nat)
      ensures found <==> a in cards
      ensures found ==> i < |cards| && i == FirstIndex(cards, a)
    {
      i := 0;
      while i < |cards|
        invariant 0 <= i <= |cards| && a !in cards[..i]
      {
        if Arrcmp(cards[i], a) {
          FirstIndexAt(cards, a, i);
          return true, i;
        }
        assert cards[..i + 1] == cards[..i] + [cards[i]];
        i := i + 1;
      }
      assert cards[..i] == cards;
      return false, i;
    }

    /** The write-back loop: the local cards are put into slots 0.. in order. */
    method WriteCards(cards: seq<Card>)
      requires Sized() && |cards| <= MAX_CARDS
      modifies mem
      ensures mem[..] == StoreCards(old(mem[..]), cards)
    {
      ghost var m0 := mem[..];
      assert StoreCards(m0, []) == m0;
      var j := 0;
      while j < |cards|
        invariant 0 <= j <= |cards|
        invariant mem[..] == StoreCards(m0, cards[..j])
      {
        StoreThenPut(m0, cards[..j], cards[j]);
        WriteBytes(SlotAddr(j), cards[j]);
        assert cards[..j + 1] == cards[..j] + [cards[j]];
        j := j + 1;
      }
      assert cards[..j] == cards;
    }

    // Outcomes.

    /** accessGranted. */
    method AccessGranted()
      requires Sized()
      modifies this
      ensures Snapshot() == Grant(old(Snapshot()))
    {
      tries := 0;
      retrySeconds := 0;
      password := [];
      barcode := [];
      log := log + [Granted];
    }

    /** accessDenied: the count is a uint8_t. */
    method AccessDenied()
      requires Sized()
      modifies this
      ensures Snapshot() == Deny(old(Snapshot()))
    {
      password := [];
      barcode := [];
      retrySeconds := 0;
      tries := (tries + 1) % 256;
      uid := None;
      if tries == LOCK_TRIES {
        log := log + [Denied, Locked];
      } else {
        log := log + [Denied];
      }
    }

    // The registry.

    /** addDeleteCard: the first entry equal to a is replaced by the last one and
        the count decremented; with no such entry a is appended. */
    method AddDeleteCard(a: Card) returns (deleted: bool)
      requires Sized() && WellFormed(mem[..]) && Count(mem[..]) < MAX_CARDS
      modifies this, mem
      ensures deleted <==> a in Registry(old(mem[..]))
      ensures Snapshot() == old(Snapshot()).(mem := Toggle(old(mem[..]), a), uid := None)
    {
      var cards := ReadCards();
      var found, i := FindSlot(cards, a);
      if found {
        CompactSlot(cards, i);
        uid := None;
        return true;
      }
      AppendCard(a);
      uid := None;
      return false;
    }

    /** The removal branch of addDeleteCard: the last entry is copied into slot
        i, the remaining entries are put back and the count decremented. */
    method CompactSlot(cards: seq<Card>, i: nat)
      requires Sized() && WellFormed(mem[..]) && cards == Registry(mem[..]) && i < |cards|
      modifies mem
      ensures mem[..] == RemoveAt(old(mem[..]), i)
    {
      var count := |cards|;
      var kept := cards[i := cards[count - 1]];
      count := count - 1;
      WriteCards(kept[..count]);
      ghost var written := mem[..];
      mem[USERCARDSCOUNT] := count as byte;
      assert mem[..] == written[USERCARDSCOUNT := count as byte];
    }

    /** The append branch of addDeleteCard: the count is incremented and a is
        put into the new last slot. */
    method AppendCard(a: Card)
      requires Sized() && WellFormed(mem[..]) && Count(mem[..]) < MAX_CARDS
      modifies mem
      ensures mem[..] == Append(old(mem[..]), a)
    {
      var count := mem[USERCARDSCOUNT] as nat + 1;
      WriteBytes(SlotAddr(count - 1), a);
      ghost var written := mem[..];
      mem[USERCARDSCOUNT] := count as byte;
      assert mem[..] == written[USERCARDSCOUNT := count as byte];
    }

    /** The removal step of del for a matching entry i: the last entry is moved
        into slot i (unless i is the last one), the remaining entries are put
        back and the count decremented. */
    method RemoveSlot(cards: seq<Card>, i: nat)
      requires Sized() && WellFormed(mem[..]) && cards == Registry(mem[..]) && i < |cards|
      modifies mem
      ensures mem[..] == RemoveAt(old(mem[..]), i)
    {
      ghost var m0 := mem[..];
      var count := |cards|;
      var kept := cards;
      if i != count - 1 {
        kept := cards[i := cards[count - 1]];
      } else {
        assert cards[i := cards[count - 1]] == cards;
      }
      count := count - 1;
      assert kept[..count] == Compacted(cards, i);
      WriteCards(kept[..count]);
      ghost var written := mem[..];
      mem[USERCARDSCOUNT] := count as byte;
      assert mem[..] == written[USERCARDSCOUNT := count as byte];
    }

    /** The removal step of del: the first entry equal to card is removed;
        with no such entry the store is left as it is. */
    method RemoveCard(card: Card)
      requires Sized() && WellFormed(mem[..])
      modifies mem
      ensures mem[..] == Delete(old(mem[..]), card)
    {
      var cards := ReadCards();
      var found, i := FindSlot(cards, card);
      if found {
        RemoveSlot(cards, i);
      }
    }

    /** del: with auth() and an ID argument, the parsed card is removed. */
    method Del(authorized: bool, arg: Option<seq<byte>>)
      requires Valid()
      modifies mem
      ensures Valid() && Snapshot() == DeleteStep(old(Snapshot()), authorized, arg)
    {
      Properties.DeleteHandlerKeepsInv(Snapshot(), authorized, arg);
      if authorized && arg.Some? {
        var card := ParseCard(arg.value);
        RemoveCard(card);
      }
    }

    // The configuration handlers. changePass, changePin and changeLockTime test
    // `!auth`, the address of the function, which is never null: they refuse no
    // request, so `authorized` is accepted and not consulted.

    /** changePass. */
    method ChangePass(authorized: bool, arg: Option<seq<byte>>)
      requires Valid()
      modifies mem
      ensures Valid() && Snapshot() == ChangePassStep(old(Snapshot()), authorized, arg)
    {
      Properties.TextHandlersKeepInv(Snapshot(), authorized, arg);
      if arg.Some? {
        var p := arg.value;
        if 0 < |p| < TEXT_LIMIT {
          WriteBytes(ADMINPASS, p);
        }
      }
    }

    /** changePin. */
    method ChangePin(authorized: bool, arg: Option<seq<byte>>)
      requires Valid()
      modifies mem
      ensures Valid() && Snapshot() == ChangePinStep(old(Snapshot()), authorized, arg)
    {
      Properties.TextHandlersKeepInv(Snapshot(), authorized, arg);
      if arg.Some? {
        var p := arg.value;
        if 0 < |p| < TEXT_LIMIT {
          WriteBytes(PINCODE, p);
        }
      }
    }

    /** changeLockTime: 1 to 3 characters, each checked to be a digit, then
        converted with atoi and truncated to uint8_t. */
    method ChangeLockTime(authorized: bool, arg: Option<seq<byte>>)
      requires Valid()
      modifies this, mem
      ensures Valid() && Snapshot() == ChangeLockTimeStep(old(Snapshot()), authorized, arg)
    {
      Properties.LockTimeHandlerKeepsInv(Snapshot(), authorized, arg);
      if arg.Some? {
        var p := arg.value;
        if 0 < |p| < LOCKTIME_LIMIT {
          var ok := DigitsCheck(p);
          if !ok {
            return;
          }
          var lock := (DigitsValue(p) % 256) as byte;
          mem[LOCKTIME] := lock;
          locktime := lock;
        }
      }
    }

    /** The character check of changeLockTime: stops at the first non-digit. */
    static method DigitsCheck(p: seq<byte>) returns (ok: bool)
      ensures ok <==> AllDigits(p)
    {
      var i := 0;
      while i < |p|
        invariant 0 <= i <= |p| && AllDigits(p[..i])
      {
        if !IsDigit(p[i]) {
          return false;
        }
        assert p[..i + 1] == p[..i] + [p[i]];
        i := i + 1;
      }
      assert p[..i] == p;
      return true;
    }

    /** toggleNFC. */
    method ToggleNfc(authorized: bool)
      requires Valid()
      modifies mem, cfg
      ensures Valid() && Snapshot() == ToggleNfcStep(old(Snapshot()), authorized)
    {
      Properties.ToggleHandlersKeepInv(Snapshot(), authorized);
      if authorized {
        cfg[0] := !cfg[0];
        if cfg[0] {
          mem[NFCENABLED] := 1;
        } else {
          mem[NFCENABLED] := 0;
        }
      }
    }

    /** togglePIN. */
    method TogglePin(authorized: bool)
      requires Valid()
      modifies mem, cfg
      ensures Valid() && Snapshot() == ToggleKeypadStep(old(Snapshot()), authorized)
    {
      Properties.ToggleHandlersKeepInv(Snapshot(), authorized);
      if authorized {
        cfg[1] := !cfg[1];
        if cfg[1] {
          mem[PASSENABLED] := 1;
        } else {
          mem[PASSENABLED] := 0;
        }
      }
    }

    /** toggleScanner: the flag byte is the first byte of the keypad code. */
    method ToggleScanner(authorized: bool)
      requires Valid()
      modifies mem, cfg
      ensures Valid() && Snapshot() == ToggleScannerStep(old(Snapshot()), authorized)
    {
      Properties.ToggleHandlersKeepInv(Snapshot(), authorized);
      if authorized {
        cfg[2] := !cfg[2];
        if cfg[2] {
          mem[SCANNERENABLED] := 1;
        } else {
          mem[SCANNERENABLED] := 0;
        }
      }
    }

    // Reset and barcode.

    /** clearData: every byte zeroed, then the defaults put. */
    method ClearData()
      requires Sized()
      modifies mem
      ensures Snapshot() == old(Snapshot()).(mem := DefaultImage())
    {
      ZeroFill();
      PutDefaults();
    }

    /** The first loop of clearData: every byte of the store is zeroed. */
    method ZeroFill()
      requires Sized()
      modifies mem
      ensures forall k :: 0 <= k < mem.Length ==> mem[k] == 0
    {
      var i := 0;
      while i < mem.Length
        invariant 0 <= i <= mem.Length
        invariant forall k :: 0 <= k < i ==> mem[k] == 0
      {
        mem[i] := 0;
        i := i + 1;
      }
    }

    /** The puts of clearData over a zeroed store: the first-run flag, "admin"
        with its terminator, the three feature flags and the lock time. */
    method PutDefaults()
      requires Sized() && forall k :: 0 <= k < mem.Length ==> mem[k] == 0
      modifies mem
      ensures mem[..] == DefaultImage()
    {
      mem[FIRSTRUN] := 1;
      mem[1] := 97;
      mem[2] := 100;
      mem[3] := 109;
      mem[4] := 105;
      mem[5] := 110;
      mem[6] := 0;
      mem[NFCENABLED] := 1;
      mem[PASSENABLED] := 1;
      mem[SCANNERENABLED] := 1;
      mem[LOCKTIME] := LOCKTIME_DEFAULT;
      assert forall k :: 0 <= k < EEPROM_SIZE ==> mem[k] == DefaultByte(k);
    }

    /** The matching loop of barcodeCheck: every entry equal to card grants
        access once. */
    method GrantMatches(cards: seq<Card>, card: Card)
      requires Sized()
      modifies this
      ensures Snapshot() == GrantTimes(old(Snapshot()), Matches(cards, card))
    {
      ghost var s0 := Snapshot();
      var i := 0;
      while i < |cards|
        invariant 0 <= i <= |cards|
        invariant Snapshot() == GrantTimes(s0, Matches(cards[..i], card))
      {
        MatchesStep(cards, i, card);
        if Arrcmp(cards[i], card) {
          GrantTimesStep(s0, Matches(cards[..i], card));
          AccessGranted();
        }
        i := i + 1;
      }
      assert cards[..i] == cards;
    }

    /** barcodeCheck, called with the barcode buffer: an empty one is refused;
        otherwise the card parsed from h2i's output grants access once per
        registry entry equal to it. */
    method BarcodeCheck()
      requires Sized() && WellFormed(mem[..])
      modifies this
      ensures Snapshot() == Machine.BarcodeCheck(old(Snapshot()))
    {
      if |barcode| > 0 {
        var code := H2i(barcode);
        var cards := ReadCards();
        var card := ParseCard(code);
        GrantMatches(cards, card);
        return;
      }
      AccessDenied();
    }

    // The branches of loop.

    /** The card branch: findCard clears uidLen, then the outcome. */
    method CardBranch(c: Card)
      requires Sized() && WellFormed(mem[..])
      modifies this
      ensures Snapshot() == CardCheck(old(Snapshot()), c)
    {
      uid := None;
      if FindCard(mem[..], c) {
        AccessGranted();
      } else {
        AccessDenied();
      }
    }

    /** The keypad branch for one byte. */
    method KeypadBranch(c: byte)
      requires Sized()
      modifies this
      ensures Snapshot() == KeyPress(old(Snapshot()), c)
    {
      if IsDigit(c) && |password| < PASSWORD_LIMIT {
        password := password + [c];
      } else if c == CHAR_C {
        password := if password == [] then [] else password[..|password| - 1];
      } else if c == CHAR_O {
        if CheckPass(mem[..], password) {
          AccessGranted();
        } else {
          AccessDenied();
        }
      }
    }

    /** The scanner branch for one byte. */
    method ScannerBranch(b: byte)
      requires Sized() && WellFormed(mem[..])
      modifies this
      ensures Snapshot() == ScanByte(old(Snapshot()), b)
    {
      if b == CR {
        BarcodeCheck();
      } else {
        barcode := barcode + [b];
      }
    }

    /** The user side of loop: card, keypad, scanner, then uidLen is cleared. */
    method UserSide(inp: Input)
      requires Sized() && WellFormed(mem[..])
      modifies this
      ensures Snapshot() == Machine.UserPass(old(Snapshot()), inp)
    {
      CardBlock();
      KeypadBlock(inp.key);
      ScannerBlock(inp.scan);
      uid := None;
    }

    /** The card block of loop, guarded by cfg[0] and uidLen. */
    method CardBlock()
      requires Sized() && WellFormed(mem[..])
      modifies this
      ensures Snapshot() == CardStage(old(Snapshot()))
    {
      if cfg[0] && uid.Some? {
        CardBranch(uid.value);
      }
    }

    /** The keypad block of loop, guarded by cfg[1] and a key having been read. */
    method KeypadBlock(key: Option<byte>)
      requires Sized() && WellFormed(mem[..])
      modifies this
      ensures Snapshot() == KeyStage(old(Snapshot()), key)
    {
      if cfg[1] && key.Some? {
        KeypadBranch(key.value);
      }
    }

    /** The scanner block of loop, guarded by cfg[2] and a byte having arrived. */
    method ScannerBlock(scan: Option<byte>)
      requires Sized() && WellFormed(mem[..])
      modifies this
      ensures Snapshot() == ScanStage(old(Snapshot()), scan)
    {
      if cfg[2] && scan.Some? {
        ScannerBranch(scan.value);
      }
    }

    /** The poll block of loop: a due poll with the reader enabled stores the
        answer of a card that replies; the master card flips enrolment and
        clears the answer. Returns whether the master card was seen. */
    method PollBlock(inp: Input) returns (master: bool)
      requires Sized()
      modifies this
      ensures master == MasterSeen(old(Snapshot()), inp)
      ensures !master ==> Snapshot() == Machine.Poll(old(Snapshot()), inp)
      ensures master ==> Snapshot() == old(Snapshot()).(masterAccess := !old(masterAccess), uid := None,
                            log := old(log) + [if old(masterAccess) then EnrolmentOff else EnrolmentOn])
    {
      if inp.pollDue && cfg[0] {
        if inp.card.Some? {
          uid := inp.card;
        }
        if uid.Some? && Arrcmp(uid.value, masterId) {
          if !masterAccess {
            masterAccess := true;
            log := log + [EnrolmentOn];
          } else {
            masterAccess := false;
            log := log + [EnrolmentOff];
          }
          uid := None;
          return true;
        }
      }
      return false;
    }

    /** Enrolment mode: a card other than the master card is added or deleted
        while the count byte is below 120; the answer is then kept. */
    method Enrolment()
      requires Sized() && WellFormed(mem[..])
      modifies this, mem
      ensures Snapshot() == Enrol(old(Snapshot()))
    {
      if uid.Some? && !Arrcmp(masterId, uid.value) && mem[USERCARDSCOUNT] as nat < MAX_CARDS {
        var deleted := AddDeleteCard(uid.value);
        log := log + [if deleted then CardDeleted else CardAdded];
      }
    }

    /** The lockout branch of loop. */
    method LockoutBranch(tick: bool)
      requires Sized()
      modifies this
      ensures Snapshot() == LockoutPass(old(Snapshot()), tick).(uid := None)
    {
      if tick {
        retrySeconds := retrySeconds + 1;
      }
      if retrySeconds >= locktime as nat * SECONDS_PER_MINUTE {
        tries := 0;
        retrySeconds := 0;
        log := log + [Unlocked];
      }
      uid := None;
    }

    /** One pass of loop. */
    method Loop(inp: Input)
      requires Valid()
      modifies this, mem
      ensures Valid() && Snapshot() == LoopStep(old(Snapshot()), inp)
    {
      Properties.LoopStepKeepsInv(Snapshot(), inp);
      if tries < LOCK_TRIES {
        ActiveBranch(inp);
      } else {
        LockoutBranch(inp.tick);
      }
    }

    /** A pass of loop below 3 failures: the poll block, then enrolment or the
        user side. */
    method ActiveBranch(inp: Input)
      requires Sized() && WellFormed(mem[..])
      modifies this, mem
      ensures Snapshot() == ActivePass(old(Snapshot()), inp)
    {
      var master := PollBlock(inp);
      if master {
        return;
      }
      if masterAccess {
        Enrolment();
        return;
      }
      UserSide(inp);
    }

    // Start-up.

    /** firstRunConfig: the master card's answer is stored at MASTERCARDID, then
        the keypad code is collected until 'O' and stored from PINCODE on, and
        the first-run flag is cleared. */
    method FirstRunConfig(master: Card, keys: seq<byte>)
      requires Sized() && |password| <= PASSWORD_LIMIT
      modifies this, mem
      ensures mem[..] == FirstRunImage(old(mem[..]), master, FirstRunPin(old(password), keys))
      ensures password == FirstRunPin(old(password), keys)
      ensures masterId == master && uid == Some(master)
      ensures tries == old(tries) && locktime == old(locktime) && retrySeconds == old(retrySeconds)
      ensures masterAccess == old(masterAccess) && barcode == old(barcode) && log == old(log)
    {
      uid := Some(master);
      WriteBytes(MASTERCARDID, master);
      masterId := master;
      password := CollectPin(password, keys);
      WriteBytes(PINCODE, password);
      mem[FIRSTRUN] := 0;
    }

    /** The keypad loop of firstRunConfig: keys are applied to the buffer until
        'O' is pressed. */
    static method CollectPin(start: seq<byte>, keys: seq<byte>) returns (pw: seq<byte>)
      requires |start| <= PASSWORD_LIMIT
      ensures pw == FirstRunPin(start, keys)
    {
      pw := start;
      var k := 0;
      while k < |keys| && keys[k] != CHAR_O
        invariant 0 <= k <= |keys| && |pw| <= PASSWORD_LIMIT
        invariant FirstRunPin(pw, keys[k..]) == FirstRunPin(start, keys)
      {
        var c := keys[k];
        assert keys[k..][1..] == keys[k + 1..];
        if IsDigit(c) && |pw| < PASSWORD_LIMIT {
          pw := pw + [c];
        } else if c == CHAR_C {
          pw := if pw == [] then [] else pw[..|pw| - 1];
        }
        k := k + 1;
      }
    }

    /** The store stage of setup: clearData when the reset button is held,
        then firstRunConfig when the first-run flag is set. */
    method PrepareStore(reset: bool, master: Card, keys: seq<byte>)
      requires Sized() && password == []
      modifies this, mem
      ensures mem[..] == BootImage(old(mem[..]), reset, master, keys)
      ensures tries == old(tries) && retrySeconds == old(retrySeconds) && masterAccess == old(masterAccess)
      ensures barcode == old(barcode) && log == old(log)
    {
      if reset {
        ClearData();
      }
      if mem[FIRSTRUN] == 1 {
        FirstRunConfig(master, keys);
      }
    }

    /** setup: the store is loaded from image; clearData runs when the reset
        button is held, firstRunConfig when the first-run flag is set; then the
        master card, the feature flags and the lock time are read back. */
    constructor Boot(image: seq<byte>, reset: bool, master: Card, keys: seq<byte>)
      requires |image| == EEPROM_SIZE && (reset || (WellFormed(image) && NoDuplicates(Registry(image))))
      ensures Valid() && Snapshot() == BootState(image, reset, master, keys)
    {
      mem := new byte[EEPROM_SIZE](k => if 0 <= k < |image| then image[k] else 0);
      cfg := new bool[3](_ => false);
      tries := 0;
      locktime := 0;
      retrySeconds := 0;
      masterAccess := false;
      masterId := [0, 0, 0, 0];
      uid := None;
      password := [];
      barcode := [];
      log := [];
      new;
      assert mem[..] == image;
      PrepareStore(reset, master, keys);
      ReadBack();
      Properties.BootInv(image, reset, master, keys);
    }

    /** The read-back stage of setup: the master card, the feature flags and
        the lock time are loaded from the store. */
    method ReadBack()
      requires Sized() && tries == 0 && retrySeconds == 0 && !masterAccess
      requires barcode == [] && log == []
      modifies this, cfg
      ensures Snapshot() == Loaded(old(mem[..]))
    {
      masterId := mem[MASTERCARDID..MASTERCARDID + CARDSIZE];
      cfg[0] := mem[NFCENABLED] != 0;
      cfg[1] := mem[PASSENABLED] != 0;
      cfg[2] := mem[SCANNERENABLED] != 0;
      locktime := mem[LOCKTIME];
      uid := None;
      password := [];
    }
  }
}
