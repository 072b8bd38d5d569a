/** The card registry: lookup, the enrolment toggle and the administrative
    delete, as functions from one memory image to the next, with the lemmas
    that give them their meaning on the registry view. */
module CardRegistry {
  import opened Layout

  /** Byte-by-byte comparison of two cards from position i on (arrcmp). */
  function ArrcmpFrom(a: Card, b: Card, i: nat): (r: bool)
    requires i <= CARDSIZE
    ensures r <==> a[i..] == b[i..]
    decreases CARDSIZE - i
  {
    if i == CARDSIZE then true
    else if a[i] != b[i] then false
    else
      var r := ArrcmpFrom(a, b, i + 1);
      assert a[i..] == [a[i]] + a[i + 1..] && b[i..] == [b[i]] + b[i + 1..];
      r
  }

  /** arrcmp: true exactly when the two cards are equal. */
  function Arrcmp(a: Card, b: Card): (r: bool)
    ensures r <==> a == b
  {
    assert a[0..] == a && b[0..] == b;
    ArrcmpFrom(a, b, 0)
  }

  /** The linear scan of findCard from slot i on. */
  function FindFrom(m: seq<byte>, a: Card, i: nat): (r: bool)
    requires WellFormed(m) && i <= Count(m)
    ensures r <==> a in Registry(m)[i..]
    decreases Count(m) - i
  {
    if i == Count(m) then false
    else
      assert Registry(m)[i..] == [Slot(m, i)] + Registry(m)[i + 1..];
      if Arrcmp(Slot(m, i), a) then true
      else FindFrom(m, a, i + 1)
  }

  /** findCard: the card is one of the registered entries. */
  function FindCard(m: seq<byte>, a: Card): (r: bool)
    requires WellFormed(m)
    ensures r <==> a in Registry(m)
  {
    assert Registry(m)[0..] == Registry(m);
    FindFrom(m, a, 0)
  }

  /** Position of the first entry equal to a. */
  function FirstIndex(cs: seq<Card>, a: Card): (r: nat)
    requires a in cs
    ensures r < |cs| && cs[r] == a && a !in cs[..r]
  {
    if cs[0] == a then 0
    else
      var r := 1 + FirstIndex(cs[1..], a);
      assert cs[..r] == [cs[0]] + cs[1..][..r - 1];
      r
  }

  /** A scan that stops at the first match finds FirstIndex. */
  lemma FirstIndexAt(cs: seq<Card>, a: Card, i: nat)
    requires i < |cs| && cs[i] == a && a !in cs[..i]
    ensures FirstIndex(cs, a) == i
  {
  }

  /** The entries after removing entry i by moving the last one into its slot. */
  function Compacted(cs: seq<Card>, i: nat): seq<Card>
    requires i < |cs|
  {
    cs[i := cs[|cs| - 1]][..|cs| - 1]
  }

  /** No card is registered twice. */
  predicate NoDuplicates(cs: seq<Card>)
  {
    forall i, j :: 0 <= i < j < |cs| ==> cs[i] != cs[j]
  }

  /** The memory after removing slot i: the compacted entries are written back
      and the count decremented; the stale last slot keeps its bytes. */
  function RemoveAt(m: seq<byte>, i: nat): (r: seq<byte>)
    requires WellFormed(m) && i < Count(m)
    ensures |r| == EEPROM_SIZE
  {
    StoreCards(m, Compacted(Registry(m), i))[USERCARDSCOUNT := (Count(m) - 1) as byte]
  }

  /** The memory after appending a at slot Count(m) and incrementing the count. */
  function Append(m: seq<byte>, a: Card): (r: seq<byte>)
    requires WellFormed(m) && Count(m) < MAX_CARDS
    ensures |r| == EEPROM_SIZE
  {
    PutCard(m, Count(m), a)[USERCARDSCOUNT := (Count(m) + 1) as byte]
  }

  /** addDeleteCard: remove the first matching entry, or append the card. */
  function Toggle(m: seq<byte>, a: Card): (r: seq<byte>)
    requires WellFormed(m) && Count(m) < MAX_CARDS
    ensures |r| == EEPROM_SIZE
  {
    var cs := Registry(m);
    if a in cs then RemoveAt(m, FirstIndex(cs, a)) else Append(m, a)
  }

  /** del: remove the first entry equal to id; nothing changes when there is none. */
  function Delete(m: seq<byte>, id: Card): (r: seq<byte>)
    requires WellFormed(m)
    ensures |r| == EEPROM_SIZE
  {
    var cs := Registry(m);
    if id in cs then RemoveAt(m, FirstIndex(cs, id)) else m
  }

  /** Removing entry i leaves every other entry, as a multiset. */
  lemma CompactedMultiset(cs: seq<Card>, i: nat)
    requires i < |cs|
    ensures |Compacted(cs, i)| == |cs| - 1
    ensures multiset(Compacted(cs, i)) == multiset(cs) - multiset{cs[i]}
  {
    var n := |cs|;
    if i == n - 1 {
      assert Compacted(cs, i) == cs[..n - 1];
      assert cs == cs[..n - 1] + [cs[i]];
    } else {
      assert cs == cs[..i] + [cs[i]] + cs[i + 1..n - 1] + [cs[n - 1]];
      assert Compacted(cs, i) == cs[..i] + [cs[n - 1]] + cs[i + 1..n - 1];
    }
  }

  /** Removal keeps a duplicate-free registry duplicate-free. */
  lemma CompactedNoDuplicates(cs: seq<Card>, i: nat)
    requires i < |cs| && NoDuplicates(cs)
    ensures NoDuplicates(Compacted(cs, i))
    ensures cs[i] !in Compacted(cs, i)
  {
    var n := |cs|;
    var c := Compacted(cs, i);
    forall p, q | 0 <= p < q < |c|
      ensures c[p] != c[q]
    {
      var p' := if p == i then n - 1 else p;
      var q' := if q == i then n - 1 else q;
      assert c[p] == cs[p'] && c[q] == cs[q'] && p' != q';
    }
    forall p | 0 <= p < |c|
      ensures c[p] != cs[i]
    {
      var p' := if p == i then n - 1 else p;
      assert c[p] == cs[p'] && p' != i;
    }
  }

  /** The registry read back after RemoveAt is the compacted registry. */
  lemma RemoveAtRegistry(m: seq<byte>, i: nat)
    requires WellFormed(m) && i < Count(m)
    ensures WellFormed(RemoveAt(m, i))
    ensures Registry(RemoveAt(m, i)) == Compacted(Registry(m), i)
    ensures multiset(Registry(RemoveAt(m, i))) == multiset(Registry(m)) - multiset{Registry(m)[i]}
  {
    CompactedMultiset(Registry(m), i);
    StoreCardsRegistry(m, Compacted(Registry(m), i));
  }

  /** The registry read back after Append is the old registry followed by a. */
  lemma AppendRegistry(m: seq<byte>, a: Card)
    requires WellFormed(m) && Count(m) < MAX_CARDS
    ensures WellFormed(Append(m, a))
    ensures Registry(Append(m, a)) == Registry(m) + [a]
  {
    StoreOwnCards(m);
    StoreThenPut(m, Registry(m), a);
    StoreCardsRegistry(m, Registry(m) + [a]);
  }

  /** addDeleteCard removes a present card and appends an absent one: the count
      moves by one, the multiset of entries loses or gains exactly a, and a
      duplicate-free registry stays duplicate-free with a's membership flipped. */
  lemma ToggleRegistry(m: seq<byte>, a: Card)
    requires WellFormed(m) && Count(m) < MAX_CARDS
    ensures WellFormed(Toggle(m, a))
    ensures a in Registry(m) ==>
              Count(Toggle(m, a)) == Count(m) - 1 &&
              multiset(Registry(Toggle(m, a))) == multiset(Registry(m)) - multiset{a}
    ensures a !in Registry(m) ==>
              Count(Toggle(m, a)) == Count(m) + 1 &&
              Registry(Toggle(m, a)) == Registry(m) + [a]
    ensures NoDuplicates(Registry(m)) ==>
              NoDuplicates(Registry(Toggle(m, a))) &&
              (a in Registry(Toggle(m, a)) <==> a !in Registry(m))
  {
    var cs := Registry(m);
    if a in cs {
      var i := FirstIndex(cs, a);
      RemoveAtRegistry(m, i);
      if NoDuplicates(cs) {
        CompactedNoDuplicates(cs, i);
      }
    } else {
      AppendRegistry(m, a);
    }
  }

  /** Enrolling an absent card and scanning it again restores the registry
      and its count (only the stale slot past the end keeps the card's bytes). */
  lemma ToggleTwice(m: seq<byte>, a: Card)
    requires WellFormed(m) && Count(m) + 1 < MAX_CARDS && a !in Registry(m)
    ensures WellFormed(Toggle(m, a))
    ensures Count(Toggle(Toggle(m, a), a)) == Count(m)
    ensures Registry(Toggle(Toggle(m, a), a)) == Registry(m)
  {
    var cs := Registry(m);
    var n := |cs|;
    var m1 := Toggle(m, a);
    AppendRegistry(m, a);
    assert Registry(m1) == cs + [a];
    assert FirstIndex(cs + [a], a) == n;
    RemoveAtRegistry(m1, n);
    assert Compacted(cs + [a], n) == cs;
  }

  /** del removes one copy of id and keeps every other entry as a multiset; when
      id is not registered, not a single byte changes. */
  lemma DeleteRegistry(m: seq<byte>, id: Card)
    requires WellFormed(m)
    ensures WellFormed(Delete(m, id))
    ensures multiset(Registry(Delete(m, id))) == multiset(Registry(m)) - multiset{id}
    ensures id !in Registry(m) ==> Delete(m, id) == m
    ensures id in Registry(m) ==> Count(Delete(m, id)) == Count(m) - 1
    ensures NoDuplicates(Registry(m)) ==> NoDuplicates(Registry(Delete(m, id))) && id !in Registry(Delete(m, id))
  {
    var cs := Registry(m);
    if id in cs {
      var i := FirstIndex(cs, id);
      RemoveAtRegistry(m, i);
      if NoDuplicates(cs) {
        CompactedNoDuplicates(cs, i);
      }
    } else {
      assert id !in multiset(cs);
    }
  }
}
