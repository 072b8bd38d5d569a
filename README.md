# Door-lock controller: access-control core

This project models the access-control core of `espmain/espMain.cpp`, the
firmware of an ESP8266 door lock. The lock has a card reader, a serial keypad
and a barcode scanner, and keeps its configuration and its card registry in a
512-byte emulated EEPROM. The model covers:

- the registry operations `arrcmp`, `findCard`, `addDeleteCard` and the web
  handler `del`;
- the access code check `checkPass` and the handlers `changePass`,
  `changePin` and `changeLockTime`;
- the feature toggles `toggleNFC`, `togglePIN` and `toggleScanner`;
- `clearData`, `firstRunConfig` and the store stage of `setup`;
- the barcode path `h2i` and `barcodeCheck`;
- the outcomes `accessGranted` and `accessDenied`;
- one pass of `loop`: the card poll, the master card, enrolment, the user side
  and the lockout timer.

Layout:

- `layout.dfy` (module `Layout`): the store offsets, exactly as the `#define`s
  give them, and the registry view of the store.
- `registry.dfy` (`CardRegistry`): lookup, the enrolment toggle and the
  administrative delete, as functions from one store image to the next.
- `text.dfy` (`Text`): decimal and hexadecimal digits, `String::toInt`,
  `strtol(…, 16)` and `indexOf`/`substring` on byte strings.
- `config.dfy` (`Config`): the stored access code and the configuration writes.
- `barcode.dfy` (`Barcode`): `h2i` and the four-field parse loop.
- `machine.dfy` (`Machine`): the controller as a state machine over values.
- `properties.dfy` (`Properties`): what the controller guarantees.
- `controller.dfy` (`Controller`): class `Lock`. It holds the store as an
  `array<byte>`, `cfg[]` as an `array<bool>` and the globals as fields. Every
  method is proved to move the object exactly as the matching `Machine`
  function moves a `State` value.

Behaviour kept as the code has it:

- **Overlapping offsets.** `SCANNERENABLED` and `PINCODE` are both 12
  (`espMain.cpp:54-56`). Toggling the scanner therefore writes the first byte of
  the keypad code. Switching the scanner off empties the code, so an empty
  keypad submission opens the door. Switching it on puts byte 1 first, so no
  keypad input can match. After `clearData` the code is the single byte 1.
  The schema comment at `espMain.cpp:27-41` gives other offsets; the model
  follows the `#define`s, which are what the code uses.
- **Nine-digit first-run code.** The first-run keypad loop accepts up to 9
  digits and writes them all from `PINCODE` (12) on. A 9-digit code overwrites
  the first byte of the master card at 20. `checkPass` reads at most 8 bytes
  (`espMain.cpp:266-280`), so the 9-digit code as typed is always refused,
  while its first 8 digits, which bytes 12 to 19 hold, open the door.
- **`!auth`.** `changePass`, `changePin` and `changeLockTime` test `!auth`,
  the address of the function, instead of calling it (`espMain.cpp:419`, `:440`,
  `:461`). They refuse no request. The model passes them an `authorized` flag
  and proves that its value makes no difference. `del` and the toggles call
  `auth()` and honour it.
- **Barcode without outcome.** `barcodeCheck` grants access once for every
  registry entry equal to the decoded card. A non-empty barcode that matches
  nothing does nothing: no denial, no failure counted, and the barcode buffer
  is not cleared. Only an empty barcode is denied. The function's own doc
  comment (`espMain.cpp:673-674`) says it grants or denies according to
  `arrcmp`; the model follows the code.
- **The 120 gate.** The registry capacity check sits in `loop`
  (`espMain.cpp:836`), before `addDeleteCard` is called. At 120 cards neither
  an add nor a removal happens through enrolment.
- **Truncations.** `tries` is a `uint8_t` and wraps at 256. `changeLockTime`
  stores `atoi` of up to three digits cast to `uint8_t`, so "300" is stored as
  44. `toInt` results are cast to `uint8_t` in the parse loops.

Inputs the firmware reads from hardware become parameters. `Input.pollDue`
says 500 ms have passed since the last card poll, `Input.card` is the reader's
answer, `Input.key` and `Input.scan` are a pending keypad byte and scanner
byte, and `Input.tick` says one second of the lockout timer has passed. For
the web handlers, `authorized` is what `auth()` would answer and the
`Option<seq<byte>>` argument is the request argument when present. For
`setup`, `image` is the store found at power-up, `reset` is the reset button,
`master` is the first card answer during first-run configuration and `keys`
is the keypad bytes typed after it. What the controller shows or drives is
recorded as a log of `Event`s.

## Model

| member | source | states |
|---|---|---|
| Layout.StoreCardsRegistry | espmain/espMain.cpp:197-211 | Writing cards back slot by slot and setting the count byte to their number makes the registry read back exactly those cards, and the count stays within capacity. |
| CardRegistry.Arrcmp | espmain/espMain.cpp:160-165 | `arrcmp` answers true exactly when the two 4-byte cards are equal. |
| CardRegistry.FindCard | espmain/espMain.cpp:241-257 | `findCard` answers true exactly when the card is among the first `count` registry slots. |
| CardRegistry.FirstIndex | espmain/espMain.cpp:200-201 | The slot the search loop stops at holds the card, and no earlier slot does. |
| CardRegistry.CompactedMultiset | espmain/espMain.cpp:201-206 | Moving the last entry into slot i and shrinking the count removes exactly entry i: the other entries stay, as a multiset. |
| CardRegistry.CompactedNoDuplicates | espmain/espMain.cpp:201-206 | The compaction keeps a duplicate-free registry duplicate-free, and the removed card is gone. |
| CardRegistry.RemoveAtRegistry | espmain/espMain.cpp:201-211 | After removal the store is well formed and its registry is the compacted registry: the old multiset less entry i. |
| CardRegistry.AppendRegistry | espmain/espMain.cpp:219-224 | Appending writes the card at the first free slot; the registry reads back as the old registry followed by the card. |
| CardRegistry.ToggleRegistry | espmain/espMain.cpp:192-232 | `addDeleteCard` on a present card removes one copy, with count minus one; on an absent card it appends it, with count plus one. A duplicate-free registry stays duplicate-free, with the card's membership flipped. |
| CardRegistry.ToggleTwice | espmain/espMain.cpp:192-232 | Scanning an absent card twice in enrolment restores the registry and its count. |
| CardRegistry.DeleteRegistry | espmain/espMain.cpp:529-576 | `del` removes one copy of the card (the multiset loses it) and decrements the count. If the card is not registered, not a byte changes. A duplicate-free registry no longer contains the card. |
| Text.DecimalRoundTrip | espmain/espMain.cpp:665 | The decimal digits that `String +=` appends for a number denote that number. |
| Text.ToIntDecimal | espmain/espMain.cpp:692 | `toInt` reads a decimal rendering back as its number. |
| Text.LeadingDigits | espmain/espMain.cpp:692 | The digits `toInt` reads are a prefix of the text, all digits, and stop at the first non-digit. |
| Text.IndexOfFirst | espmain/espMain.cpp:665-666 | `indexOf(':')` is -1 exactly when there is no colon; otherwise it is the position of the first colon. |
| Text.SplitAtColon | espmain/espMain.cpp:665-666 | A colon-free field followed by a colon splits off unchanged; what follows the colon is kept as the rest. |
| Barcode.H2i | espmain/espMain.cpp:662-670 | The four-pass loop of `h2i` returns the decimal quadruple of its input: each field, read as hexadecimal, rendered in decimal and followed by a colon. |
| Barcode.ParseCard | espmain/espMain.cpp:691-694 | The four-pass parse loop returns the card of the quadruple: each field's `toInt`, truncated to a byte. |
| Barcode.ParseTokensAt | espmain/espMain.cpp:692 | Byte i of the parsed card is field i's `toInt` value modulo 256. |
| Barcode.RenderToken | espmain/espMain.cpp:662-670 | Splitting `h2i`'s output at its colons gives back field i's decimal rendering. |
| Barcode.BarcodeCard | espmain/espMain.cpp:678-694 | The card `barcodeCheck` builds holds, at every position, the value of that hexadecimal field of the scanned text modulo 256. |
| Barcode.CardTextRoundTrip | espmain/espMain.cpp:543-546 | `del`'s parse of a card written as "a:b:c:d:" is that card. |
| Barcode.H2iExample | espmain/espMain.cpp:654-670 | `h2i("AC:3D:FF:A0")` is "172:61:255:160:", which parses back to the card [172, 61, 255, 160]. |
| Config.CodeFrom | espmain/espMain.cpp:266-275 | `checkPass` collects the stored code bytes up to the first zero or the eighth byte: none zero, at most 8, and a zero follows when fewer than 8 are collected. |
| Config.CheckPassExactly | espmain/espMain.cpp:266-280 | `checkPass(p)` holds exactly when p has at most 8 non-zero bytes, they are stored from `PINCODE` on, and a zero follows unless all 8 are used. |
| Config.WriteText | espmain/espMain.cpp:427-429 | The put loop leaves the text at its address and every other byte unchanged. |
| Config.PinUpdateCode | espmain/espMain.cpp:439-456 | A new code of 1 to 8 digits becomes the stored code followed by what the old store held after it. A code shorter than the old one keeps the old trailing digits, and then `checkPass` refuses it. |
| Config.PinUpdateRejects | espmain/espMain.cpp:425-446 | `changePass` and `changePin` leave the store unchanged for an empty text or one of 9 or more bytes. |
| Config.PinUpdateFrame | espmain/espMain.cpp:446-451 | `changePin` touches only the bytes it writes. |
| Config.LockTimeValue | espmain/espMain.cpp:467-475 | `changeLockTime` accepts a text exactly when it has 1 to 3 bytes, all digits. |
| Config.LockTimeExamples | espmain/espMain.cpp:467-475 | "300" is stored as 44, "0" as 0; "1000" and "5a" are refused. |
| Config.DefaultImageFacts | espmain/espMain.cpp:170-185 | After `clearData` the registry is empty and the first-run flag is set. The stored code is the single byte 1, so no keypad input matches it. |
| Config.FirstRunImage | espmain/espMain.cpp:344-383 | The first-run store holds the keyed-in code from `PINCODE` on and has the first-run flag cleared. |
| Config.FirstRunOverlap | espmain/espMain.cpp:344-383 | A first-run code of up to 8 digits leaves the master card intact. A 9-digit one overwrites the master card's first byte with its last digit, and `checkPass` never accepts the 9 digits as typed. |
| Config.ScannerOffEmptiesCode | espmain/espMain.cpp:642-652 | Switching the scanner off empties the stored code, so `checkPass("")` holds. |
| Config.ScannerOnBreaksCode | espmain/espMain.cpp:642-652 | Switching the scanner on makes byte 1 the first code byte, so no digit string passes `checkPass`. |
| Machine.Grant | espmain/espMain.cpp:285-301 | `accessGranted` opens the door once and resets the failure count, the lockout seconds and both buffers; the store and enrolment mode are kept. |
| Machine.Deny | espmain/espMain.cpp:305-325 | `accessDenied` clears the buffers and the card answer and counts one more failure (as a `uint8_t`); it records a lock when the count reaches 3. |
| Machine.EditPassword | espmain/espMain.cpp:872-882 | A keypad byte appends a digit while the buffer is below 9, drops the last byte on 'C', and is otherwise ignored. The buffer stays digits-only and at most 9 long. |
| Machine.KeyPress | espmain/espMain.cpp:871-888 | 'O' grants when `checkPass` accepts the buffer and denies otherwise; any other byte only edits the buffer. A keypad byte never changes the store or enrolment mode, keeps the buffer digits-only and bounded, and counts at most one failure. |
| Machine.CardCheck | espmain/espMain.cpp:860-867 | A registered card is a grant (`accessGranted`) and an unknown card a denial (`accessDenied`): the first resets the failure count, the second adds one; the card answer is dropped and the store is kept. |
| Properties.CardDecision | espmain/espMain.cpp:860-867 | A card opens the door exactly when it is registered; an unknown card logs a denial, followed by the lockout when it is the third failure. |
| Machine.Matches | espmain/espMain.cpp:695-697 | The number of matching entries is the card's multiplicity in the registry. |
| Machine.GrantTimes | espmain/espMain.cpp:695-697 | k calls of `accessGranted` log k door openings and reset the counters when k > 0. |
| Machine.BarcodeCheck | espmain/espMain.cpp:678-701 | `barcodeCheck` never changes the store or enrolment mode and counts at most one failure. |
| Machine.ScanByte | espmain/espMain.cpp:893-900 | A scanner byte never changes the store and counts at most one failure. |
| Machine.UserPass | espmain/espMain.cpp:858-902 | The user side never changes the store or enrolment mode, counts at most three failures and always drops the card answer. |
| Machine.LoopStep | espmain/espMain.cpp:792-920 | A pass of `loop` keeps the store well formed. |
| Machine.FirstRunPin | espmain/espMain.cpp:358-384 | The first-run code is digits only and at most 9 long. |
| Properties.LoopStepKeepsInv | espmain/espMain.cpp:792-920 | Every pass of `loop` keeps the invariant: a well-formed store with at most 120 cards, no card registered twice, a failure count of at most 5 and a keypad buffer of at most 9 bytes. |
| Properties.EnrolKeepsInv | espmain/espMain.cpp:833-856 | Enrolment keeps the registry free of duplicates: a present card is removed, an absent one appended, and nothing happens at 120 cards. |
| Properties.HandlersKeepInv | espmain/espMain.cpp:418-652 | Every web handler keeps the same invariant, duplicate-freedom included: `del` removes the only copy, the others write below the count byte. |
| Layout.SameRegistry | espmain/espMain.cpp:46-64 | A write below the count byte leaves the registry as it was. |
| Properties.LockoutIgnoresInput | espmain/espMain.cpp:903-917 | During a lockout, any sequence of passes before the lock time runs out only counts seconds: the card answer is dropped, no keypad or scanner byte is read, and the store is unchanged. |
| Properties.LockoutEnds | espmain/espMain.cpp:903-917 | The pass whose tick reaches lock time × 60 seconds resets the failure count and the counter and unlocks. |
| Properties.ZeroLockTime | espmain/espMain.cpp:911-915 | With lock time 0 the lockout ends on the next pass. |
| Properties.GrantDenyCounters | espmain/espMain.cpp:285-325 | A grant zeroes the failure count; a denial adds one and records a lock exactly when the count becomes 3. |
| Properties.MasterCardFlips | espmain/espMain.cpp:798-831 | A due poll that sees the master card flips enrolment mode and changes nothing else that matters: store, failure count and buffers. |
| Properties.EnrolmentNeedsReader | espmain/espMain.cpp:798 | With the card reader disabled, enrolment mode never changes. |
| Properties.EnrolmentOnlyToggles | espmain/espMain.cpp:833-856 | In enrolment mode a pass grants and denies nothing and keeps the failure count and the buffers. The store either stays the same or has the polled non-master card toggled below 120 cards. At 120 cards it never changes. |
| Properties.MatchesUnique | espmain/espMain.cpp:695-697 | In a duplicate-free registry a registered card matches exactly once. |
| Properties.BarcodeGrantsOnce | espmain/espMain.cpp:695-697 | In every reachable state a barcode whose card is registered opens the door exactly once, because the registry holds no duplicates. |
| Properties.BarcodeOutcome | espmain/espMain.cpp:678-701 | An empty barcode is denied. A non-empty barcode whose card is not registered leaves the state unchanged. A registered one grants access, and in a duplicate-free registry grants exactly once. |
| Properties.KeypadDecision | espmain/espMain.cpp:883-887 | 'O' opens the door exactly when the buffer is the stored code: at most 8 non-zero bytes held from `PINCODE` on, followed by a zero unless all 8 are used. Otherwise it is a denial. |
| Properties.KeypadBuffer | espmain/espMain.cpp:869-890 | The keypad buffer stays digits-only, and a full 9-digit buffer is always refused by `checkPass`. |
| Properties.ScannerOffOpensDoor | espmain/espMain.cpp:642-652 | Switching the scanner off and pressing 'O' on an empty buffer opens the door. |
| Properties.ScannerOnLocksKeypad | espmain/espMain.cpp:642-652 | Switching the scanner on makes every keypad submission a denial. |
| Properties.Authorisation | espmain/espMain.cpp:418-652 | `changePass`, `changePin` and `changeLockTime` do the same with or without authorisation. `del` and the toggles do nothing without it. |
| Properties.ToggleTwiceRestores | espmain/espMain.cpp:614-652 | Toggling a feature twice restores the state when its stored byte agrees with its flag. |
| Properties.ScannerToggleTwiceBreaksCode | espmain/espMain.cpp:642-652 | Toggling the scanner off and on again does not restore a stored code that starts with a digit: its first byte becomes 1. |
| Properties.LockTimeUpdate | espmain/espMain.cpp:460-482 | `changeLockTime` either leaves the state unchanged (wrong length or a non-digit) or sets both the stored byte and the lock time in RAM to the number modulo 256. |
| Properties.BootInv | espmain/espMain.cpp:711-786 | `setup` leaves a state satisfying the invariant, duplicate-freedom included: after a reset the registry is empty, and first-run configuration leaves the registry of a loaded image untouched. |
| Properties.FirstRunRegistry | espmain/espMain.cpp:344-383 | First-run configuration writes below the count byte and keeps the registry. |
| Properties.ResetThenFirstRun | espmain/espMain.cpp:730-735 | After a reset and a first-run code of 1 to 8 digits, that code is accepted and the master card is the scanned one. The registry is empty, every feature is on, and the lock time is 5. |
| Properties.ResetThenNineDigits | espmain/espMain.cpp:730-735 | After a reset and a 9-digit first-run code, the master card's first byte is the ninth digit. The code as typed is never accepted, but its first 8 digits are. |
| Config.FirstRunFirstEight | espmain/espMain.cpp:379-381 | With a 9-byte first-run code, `checkPass` accepts its first 8 bytes. |
| Properties.ResetThenEmptyCode | espmain/espMain.cpp:730-735 | After a reset and an empty first-run code, no keypad input is accepted. |
| Controller.Lock.WriteBytes | espmain/espMain.cpp:448-451 | The put loop writes the text at its address and nothing else. |
| Controller.Lock.ReadCards | espmain/espMain.cpp:197-199 | The read loop copies exactly the registry. |
| Controller.Lock.FindSlot | espmain/espMain.cpp:200-201 | The search loop finds the card exactly when it is present, at its first slot. |
| Controller.Lock.WriteCards | espmain/espMain.cpp:208-210 | The write-back loop stores the cards in slots 0 onwards. |
| Controller.Lock.AccessGranted | espmain/espMain.cpp:285-301 | The object moves as `Machine.Grant`. |
| Controller.Lock.AccessDenied | espmain/espMain.cpp:305-325 | The object moves as `Machine.Deny`. |
| Controller.Lock.AddDeleteCard | espmain/espMain.cpp:192-232 | Returns true exactly when the card was registered. The store becomes the toggled registry, the card answer is dropped and nothing else changes. |
| Controller.Lock.CompactSlot | espmain/espMain.cpp:201-211 | The removal branch of `addDeleteCard` removes slot i. |
| Controller.Lock.AppendCard | espmain/espMain.cpp:219-224 | The append branch of `addDeleteCard` appends the card. |
| Controller.Lock.RemoveSlot | espmain/espMain.cpp:547-566 | `del`'s removal step, which skips the copy for the last slot, removes slot i. |
| Controller.Lock.RemoveCard | espmain/espMain.cpp:532-567 | The store becomes the registry with the first copy of the card removed, or stays as it is. |
| Controller.Lock.Del | espmain/espMain.cpp:529-576 | `del` moves the object as `Machine.DeleteStep` and keeps the invariant. |
| Controller.Lock.ChangePass | espmain/espMain.cpp:418-435 | The object moves as `Machine.ChangePassStep` and keeps the invariant. |
| Controller.Lock.ChangePin | espmain/espMain.cpp:439-456 | The object moves as `Machine.ChangePinStep` and keeps the invariant. |
| Controller.Lock.ChangeLockTime | espmain/espMain.cpp:460-482 | The object moves as `Machine.ChangeLockTimeStep` and keeps the invariant. |
| Controller.Lock.DigitsCheck | espmain/espMain.cpp:468-472 | The character loop accepts exactly the all-digit texts. |
| Controller.Lock.ToggleNfc | espmain/espMain.cpp:614-624 | The object moves as `Machine.ToggleNfcStep` and keeps the invariant. |
| Controller.Lock.TogglePin | espmain/espMain.cpp:628-638 | The object moves as `Machine.ToggleKeypadStep` and keeps the invariant. |
| Controller.Lock.ToggleScanner | espmain/espMain.cpp:642-652 | The object moves as `Machine.ToggleScannerStep` and keeps the invariant. |
| Controller.Lock.ClearData | espmain/espMain.cpp:170-185 | The store becomes the default image and nothing else changes. |
| Controller.Lock.ZeroFill | espmain/espMain.cpp:172-173 | Every byte of the store is zero. |
| Controller.Lock.PutDefaults | espmain/espMain.cpp:175-180 | Over a zeroed store, the puts leave exactly the default image. |
| Controller.Lock.GrantMatches | espmain/espMain.cpp:695-697 | The matching loop grants access once per entry equal to the card. |
| Controller.Lock.BarcodeCheck | espmain/espMain.cpp:678-701 | The object moves as `Machine.BarcodeCheck`. |
| Controller.Lock.CardBranch | espmain/espMain.cpp:860-867 | The object moves as `Machine.CardCheck`. |
| Controller.Lock.KeypadBranch | espmain/espMain.cpp:871-888 | The object moves as `Machine.KeyPress`. |
| Controller.Lock.ScannerBranch | espmain/espMain.cpp:893-900 | The object moves as `Machine.ScanByte`. |
| Controller.Lock.CardBlock | espmain/espMain.cpp:860-867 | The object moves as `Machine.CardStage`. |
| Controller.Lock.KeypadBlock | espmain/espMain.cpp:869-890 | The object moves as `Machine.KeyStage`. |
| Controller.Lock.ScannerBlock | espmain/espMain.cpp:892-901 | The object moves as `Machine.ScanStage`. |
| Controller.Lock.UserSide | espmain/espMain.cpp:858-902 | The object moves as `Machine.UserPass`. |
| Controller.Lock.PollBlock | espmain/espMain.cpp:798-831 | Reports whether the master card was seen. If it was, enrolment mode is flipped and the answer dropped; otherwise the poll stores the answer. |
| Controller.Lock.Enrolment | espmain/espMain.cpp:833-856 | The object moves as `Machine.Enrol`. |
| Controller.Lock.LockoutBranch | espmain/espMain.cpp:903-919 | The object moves as `Machine.LockoutPass`, and the card answer is dropped. |
| Controller.Lock.Loop | espmain/espMain.cpp:792-920 | One pass of `loop` moves the object as `Machine.LoopStep` and keeps the invariant. |
| Controller.Lock.ActiveBranch | espmain/espMain.cpp:796-902 | The object moves as `Machine.ActivePass`. |
| Controller.Lock.FirstRunConfig | espmain/espMain.cpp:331-390 | The store becomes the first-run image of the master card and the collected code, and the master card is kept in RAM. |
| Controller.Lock.CollectPin | espmain/espMain.cpp:358-384 | The keypad loop returns the code `Machine.FirstRunPin` describes. |
| Controller.Lock.PrepareStore | espmain/espMain.cpp:730-735 | The store becomes `Machine.BootImage` of the image found at power-up. |
| Controller.Lock.ReadBack | espmain/espMain.cpp:747-780 | The flags, the lock time and the master card are read back from the store. |
| Controller.Lock.Boot | espmain/espMain.cpp:711-786 | `setup` leaves the object in `Machine.BootState` and satisfying the invariant. |

## Left out

- The web server, the HTML pages, `handleRoot`, `login`, `dumpCards`, `handleNotFound` and the cookie test inside `auth()` are left out. `auth()`'s answer is a parameter.
- The LCD, the serial console, Wi-Fi, `EEPROM.commit()`, `delay`, `blk()` and the door pulse's timing are left out. The pulse is one `Granted` event.
- `millis()` is left out. The 500 ms poll interval and the one-second lockout tick are the inputs `pollDue` and `tick`.
- The blocking waits of `firstRunConfig` are not modelled as loops. The first card answer and the keypad bytes are parameters; a key sequence with no 'O' is read to its end.
- `String::toInt` and `strtol` are modelled on the digits this controller produces. Signs, leading whitespace, a `0x` prefix and overflow are not.
- `changeLockTime`'s `atoi` over a buffer with no terminator is modelled as reading exactly the accepted digits.
- `EEPROM.put` with an `int` or `char` argument is modelled as a one-byte write. The model does not capture the width of `int` puts: `clearData`'s zero fill and the defaults are single bytes.
- The float percentage shown on the admin page is left out.
- `Controller.Lock.AddDeleteCard` requires fewer than 120 cards, the gate its only caller (`loop`) applies first.
- Controller.Lock.Boot requires, unless the reset button is held, a store image with at most 120 cards, none registered twice. An image with a larger count byte or a repeated card is not modelled: the invariant every later pass keeps (`Machine.Inv`) includes both, and the firmware itself never writes such an image (`Properties.LoopStepKeepsInv`, `Properties.HandlersKeepInv`).
- Properties.BootInv has the same requirement on a loaded image, for the same reason.
- Controller.Lock.Loop and Properties.LockoutIgnoresInput: `server.handleClient()` runs at the start of every pass, even during a lockout (`espMain.cpp:794`). The model runs the web handlers as separate steps between passes, so "the store is unchanged during a lockout" holds for passes that serve no web request. `Input.key` and `Input.scan` stand for the bytes a pass reads. During a lockout, in enrolment mode and with the keypad or scanner switched off, the source calls neither `bs.read()` nor `Serial.read()` (`espMain.cpp:833-857`, `:869`, `:892`, `:903-917`): bytes that arrive then stay queued in the serial receive buffers and are handled one per pass afterwards, so a code or barcode typed during a lockout is checked once it ends. The model does not capture that queue; its passes take no byte then.
- The readers' wire protocols (PN532, keypad serial and scanner serial) are left out. A poll yields a card or nothing.
- `keyboard_listener/keyboard_listener.cpp`, `test_klawiatura.c` and the `esppins.h` headers are not part of this model: they are pin maps and separate test sketches.
