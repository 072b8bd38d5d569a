/** The persistent 512-byte store of the controller: byte type, fixed offsets
    and the view of the card registry that lives in it. */
module Layout {

  /** One EEPROM byte (uint8_t). Arduino Strings are byte strings, so text is seq<byte> too. */
  newtype byte = x: int | 0 <= x < 256

  /** An optional value: a request argument, a card answer, a pending byte. */
  datatype Option<T> = None | Some(value: T)

  /** A card identifier: exactly four bytes. */
  type Card = s: seq<byte> | |s| == 4 witness [0, 0, 0, 0]

  /** Size of the emulated EEPROM region (EEPROM.begin(512)). */
  const EEPROM_SIZE: nat := 512

  // Byte offsets, as the #defines give them (not as the stale schema comment does).
  const FIRSTRUN: nat := 0
  const ADMINPASS: nat := 1
  const NFCENABLED: nat := 9
  const PASSENABLED: nat := 10
  /** Shares its address with PINCODE: toggling the scanner writes the first code byte. */
  const SCANNERENABLED: nat := 12
  const PINCODE: nat := 12
  const MASTERCARDID: nat := 20
  const LOCKTIME: nat := 24
  const USERCARDSCOUNT: nat := 25
  const USERCARDS: nat := 26
  const CARDSIZE: nat := 4

  /** The enrolment gate in the main loop: no toggle at or above this count. */
  const MAX_CARDS: nat := 120

  /** A memory image of the right size whose count byte respects the capacity. */
  predicate WellFormed(m: seq<byte>)
  {
    |m| == EEPROM_SIZE && m[USERCARDSCOUNT] as nat <= MAX_CARDS
  }

  /** Number of registered cards, read from the count byte. */
  function Count(m: seq<byte>): nat
    requires |m| == EEPROM_SIZE
  {
    m[USERCARDSCOUNT] as nat
  }

  /** First byte of registry slot j. */
  function SlotAddr(j: nat): nat
  {
    USERCARDS + CARDSIZE * j
  }

  /** The four bytes held in registry slot j. */
  function Slot(m: seq<byte>, j: nat): Card
    requires SlotAddr(j) + CARDSIZE <= |m|
  {
    m[SlotAddr(j)..SlotAddr(j) + CARDSIZE]
  }

  /** The cards of the registry: the first Count(m) slots, in slot order. */
  function Registry(m: seq<byte>): (cs: seq<Card>)
    requires WellFormed(m)
    ensures |cs| == Count(m)
    ensures forall j :: 0 <= j < |cs| ==> cs[j] == Slot(m, j)
  {
    seq(Count(m), j requires 0 <= j < Count(m) => Slot(m, j))
  }

  /** The cards laid out back to back, four bytes each. */
  function Flatten(cs: seq<Card>): (r: seq<byte>)
    ensures |r| == CARDSIZE * |cs|
  {
    if cs == [] then [] else Flatten(cs[..|cs| - 1]) + cs[|cs| - 1]
  }

  /** m with registry slots 0..|cs|-1 rewritten from cs; every other byte kept. */
  function StoreCards(m: seq<byte>, cs: seq<Card>): (r: seq<byte>)
    requires SlotAddr(|cs|) <= |m|
    ensures |r| == |m|
  {
    m[..USERCARDS] + Flatten(cs) + m[SlotAddr(|cs|)..]
  }

  /** m with the card c written at slot j (one pass of the byte-by-byte put loop). */
  function PutCard(m: seq<byte>, j: nat, c: Card): (r: seq<byte>)
    requires SlotAddr(j) + CARDSIZE <= |m|
    ensures |r| == |m|
  {
    m[..SlotAddr(j)] + c + m[SlotAddr(j) + CARDSIZE..]
  }

  /** Slot j of the flattened cards is card j. */
  lemma {:induction false} FlattenSlot(cs: seq<Card>, j: nat)
    requires j < |cs|
    ensures Flatten(cs)[CARDSIZE * j..CARDSIZE * j + CARDSIZE] == cs[j]
  {
    var n := |cs|;
    assert Flatten(cs) == Flatten(cs[..n - 1]) + cs[n - 1];
    if j < n - 1 {
      FlattenSlot(cs[..n - 1], j);
      assert Flatten(cs)[CARDSIZE * j..CARDSIZE * j + CARDSIZE]
          == Flatten(cs[..n - 1])[CARDSIZE * j..CARDSIZE * j + CARDSIZE];
    }
  }

  /** The registry bytes of a well-formed image are the flattened registry. */
  lemma {:induction false} FlattenRegistryPrefix(m: seq<byte>, k: nat)
    requires WellFormed(m) && k <= Count(m)
    ensures Flatten(Registry(m)[..k]) == m[USERCARDS..SlotAddr(k)]
  {
    if k > 0 {
      var cs := Registry(m)[..k];
      assert cs[..k - 1] == Registry(m)[..k - 1];
      FlattenRegistryPrefix(m, k - 1);
      assert Flatten(cs) == m[USERCARDS..SlotAddr(k - 1)] + Slot(m, k - 1);
    }
  }

  /** Writing back the cards a slot already holds changes nothing. */
  lemma StoreOwnCards(m: seq<byte>)
    requires WellFormed(m)
    ensures StoreCards(m, Registry(m)) == m
  {
    FlattenRegistryPrefix(m, Count(m));
    assert Registry(m)[..Count(m)] == Registry(m);
  }

  /** After storing cs and setting the count to |cs|, the registry reads back cs. */
  lemma StoreCardsRegistry(m: seq<byte>, cs: seq<Card>)
    requires |m| == EEPROM_SIZE && |cs| <= MAX_CARDS
    ensures WellFormed(StoreCards(m, cs)[USERCARDSCOUNT := |cs| as byte])
    ensures Registry(StoreCards(m, cs)[USERCARDSCOUNT := |cs| as byte]) == cs
  {
    var r := StoreCards(m, cs)[USERCARDSCOUNT := |cs| as byte];
    forall j | 0 <= j < |cs|
      ensures Slot(r, j) == cs[j]
    {
      FlattenSlot(cs, j);
      assert Slot(r, j) == Flatten(cs)[CARDSIZE * j..CARDSIZE * j + CARDSIZE];
    }
  }

  /** The registry only depends on the count byte and the bytes after it: a
      write below USERCARDSCOUNT leaves it as it was. */
  lemma SameRegistry(m: seq<byte>, m': seq<byte>)
    requires WellFormed(m) && |m'| == EEPROM_SIZE
    requires forall k :: USERCARDSCOUNT <= k < EEPROM_SIZE ==> m'[k] == m[k]
    ensures WellFormed(m') && Registry(m') == Registry(m)
  {
    forall j | 0 <= j < Count(m)
      ensures Slot(m', j) == Slot(m, j)
    {
      assert forall t :: 0 <= t < CARDSIZE ==> Slot(m', j)[t] == m'[SlotAddr(j) + t];
    }
  }

  /** Writing slot |cs| after storing cs stores cs + [c]. */
  lemma StoreThenPut(m: seq<byte>, cs: seq<Card>, c: Card)
    requires SlotAddr(|cs|) + CARDSIZE <= |m|
    ensures PutCard(StoreCards(m, cs), |cs|, c) == StoreCards(m, cs + [c])
  {
    assert (cs + [c])[..|cs|] == cs;
  }
}
