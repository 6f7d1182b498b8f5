/** Embedded/Sources/Flash.c: records kept in flash, each in a slot of its own behind a check word. A
    slot can be programmed only while it is erased, and erasing takes a whole sector of slots. */
module Slots {
  import opened Crc
  import opened Words

  datatype Slot = Slot(crc: word, image: seq<byte>)

  /** Memory as an erase leaves it. */
  function Erased(size: nat): (image: seq<byte>)
    ensures |image| == size && forall k :: 0 <= k < size ==> image[k] == 0xFF
  {
    seq(size, _ => 0xFF)
  }

  function Blank(size: nat): Slot {
    Slot(0xFFFF, Erased(size))
  }

  /** The check word fits the record. */
  predicate Checks(s: Slot) {
    s.crc == Crc16(0xFFFF, s.image)
  }

  /** Fully blank, or a record under its check word. */
  predicate Sound(s: Slot, size: nat) {
    |s.image| == size && (s == Blank(size) || (s.image != Erased(size) && Checks(s)))
  }

  predicate AllSound(slots: seq<Slot>, size: nat) {
    forall k :: 0 <= k < |slots| ==> Sound(slots[k], size)
  }

  /** A slot that was blank, after a record was written to it: a record of all ones is not written. */
  function Stored(image: seq<byte>): Slot {
    if image == Erased(|image|) then Blank(|image|) else Slot(Crc16(0xFFFF, image), image)
  }

  /** What is copied out of a slot to be written back: all ones where the check word does not fit. */
  function Copied(s: Slot): (image: seq<byte>)
    ensures |image| == |s.image|
  {
    if Checks(s) then s.image else Erased(|s.image|)
  }

  // ---------- The check word of erased memory ----------

  function Ones(n: nat): seq<byte> {
    if n == 0 then [] else Ones(n - 1) + [0xFF]
  }

  lemma {:induction false} OnesAreErased(n: nat)
    ensures Ones(n) == Erased(n)
  {
    if n > 0 {
      OnesAreErased(n - 1);
    }
  }

  lemma FourOnes(n: nat, r: word)
    requires Crc16(0xFFFF, Ones(n)) == r
    ensures Crc16(0xFFFF, Ones(n + 4)) == Step16(Step16(Step16(Step16(r, 0xFF), 0xFF), 0xFF), 0xFF)
  {
    hide Step16;
    OneMore(n);
    OneMore(n + 1);
    OneMore(n + 2);
    OneMore(n + 3);
  }

  lemma OneMore(n: nat)
    ensures Crc16(0xFFFF, Ones(n + 1)) == Step16(Crc16(0xFFFF, Ones(n)), 0xFF)
  {
    hide Step16;
    Crc16Concat(0xFFFF, Ones(n), [0xFF]);
    assert [0xFF as byte][1..] == [];
  }

  lemma StepsOnOnes()
    ensures Step16(Step16(Step16(Step16(0xFFFF, 0xFF), 0xFF), 0xFF), 0xFF) == 0xB001
    ensures Step16(Step16(Step16(Step16(0xB001, 0xFF), 0xFF), 0xFF), 0xFF) == 0x8F01
    ensures Step16(Step16(Step16(Step16(0x8F01, 0xFF), 0xFF), 0xFF), 0xFF) == 0x8331
    ensures Step16(Step16(Step16(Step16(0x8331, 0xFF), 0xFF), 0xFF), 0xFF) == 0x80FE
    ensures Step16(Step16(Step16(Step16(0x80FE, 0xFF), 0xFF), 0xFF), 0xFF) == 0x9431
    ensures Step16(Step16(Step16(Step16(0x9431, 0xFF), 0xFF), 0xFF), 0xFF) == 0x844E
    ensures Step16(Step16(Step16(Step16(0x844E, 0xFF), 0xFF), 0xFF), 0xFF) == 0x9556
    ensures Step16(Step16(Step16(Step16(0x9556, 0xFF), 0xFF), 0xFF), 0xFF) == 0x3000
    ensures Step16(Step16(Step16(Step16(0x3000, 0xFF), 0xFF), 0xFF), 0xFF) == 0x9B01
    ensures Step16(0x9B01, 0xFF) == 0x801A
    ensures Step16(Step16(Step16(Step16(0x9B01, 0xFF), 0xFF), 0xFF), 0xFF) == 0x8771
    ensures Step16(Step16(Step16(Step16(0x8771, 0xFF), 0xFF), 0xFF), 0xFF) == 0x81AA
  {
  }

  lemma ThirtyTwoOnes()
    ensures Crc16(0xFFFF, Ones(32)) == 0x3000
  {
    hide Step16;
    StepsOnOnes();
    assert Crc16(0xFFFF, Ones(0)) == 0xFFFF;
    FourOnes(0, 0xFFFF);
    FourOnes(4, 0xB001);
    FourOnes(8, 0x8F01);
    FourOnes(12, 0x8331);
    FourOnes(16, 0x80FE);
    FourOnes(20, 0x9431);
    FourOnes(24, 0x844E);
    FourOnes(28, 0x9556);
  }

  /** The check words of the three kinds of record, all ones: a zone, an Eliot id, a scene controller. */
  lemma ErasedCheckWords()
    ensures Crc16(0xFFFF, Erased(32)) == 0x3000
    ensures Crc16(0xFFFF, Erased(37)) == 0x801A
    ensures Crc16(0xFFFF, Erased(44)) == 0x81AA
  {
    hide Step16;
    StepsOnOnes();
    OnesAreErased(32);
    OnesAreErased(37);
    OnesAreErased(44);
    ThirtyTwoOnes();
    FourOnes(32, 0x3000);
    OneMore(36);
    FourOnes(36, 0x9B01);
    FourOnes(40, 0x8771);
  }

  /** A blank slot never passes the check, so a sound one passes it exactly when it holds a record. */
  lemma SoundChecks(s: Slot, size: nat)
    requires Sound(s, size) && size in {32, 37, 44}
    ensures Checks(s) <==> s.image != Erased(size)
    ensures Stored(Copied(s)) == s
  {
    hide Crc16, Erased;
    ErasedCheckWords();
  }

  lemma StoredIsSound(image: seq<byte>)
    ensures Sound(Stored(image), |image|)
  {
    hide Crc16, Erased;
  }

  // ---------- A sector read, erased and written again ----------

  function CopiedAll(slots: seq<Slot>): (copy: seq<seq<byte>>)
    ensures |copy| == |slots| && forall k :: 0 <= k < |copy| ==> copy[k] == Copied(slots[k])
  {
    seq(|slots|, k requires 0 <= k < |slots| => Copied(slots[k]))
  }

  function StoredAll(copy: seq<seq<byte>>): (slots: seq<Slot>)
    ensures |slots| == |copy| && forall k :: 0 <= k < |copy| ==> slots[k] == Stored(copy[k])
  {
    seq(|copy|, k requires 0 <= k < |copy| => Stored(copy[k]))
  }

  function BlankAll(n: nat, size: nat): (slots: seq<Slot>)
    ensures |slots| == n && forall k :: 0 <= k < n ==> slots[k] == Blank(size)
  {
    seq(n, _ => Blank(size))
  }

  /** Reading all records of a sound sector, replacing one and writing all of them to the erased sector
      changes that slot and no other. */
  lemma RewriteChangesOne(slots: seq<Slot>, size: nat, k: nat, image: seq<byte>)
    requires AllSound(slots, size) && size in {32, 37, 44} && k < |slots| && |image| == size
    ensures StoredAll(CopiedAll(slots)[k := image]) == slots[k := Stored(image)]
    ensures AllSound(slots[k := Stored(image)], size)
  {
    hide Sound, Stored, Copied;
    StoredIsSound(image);
    var after := slots[k := Stored(image)];
    forall j | 0 <= j < |slots|
      ensures StoredAll(CopiedAll(slots)[k := image])[j] == after[j] && Sound(after[j], size)
    {
      SoundChecks(slots[j], size);
    }
  }

  /** Whether memory is all ones. */
  method IsErased(image: seq<byte>) returns (erased: bool)
    ensures erased == (image == Erased(|image|))
  {
    var i := 0;
    erased := true;
    while i < |image| && erased
      invariant i <= |image| && (erased ==> forall k :: 0 <= k < i ==> image[k] == 0xFF)
      invariant !erased ==> image != Erased(|image|)
      decreases |image| - i, erased
    {
      if image[i] != 0xFF {
        assert Erased(|image|)[i] == 0xFF;
        erased := false;
      }
      i := i + 1;
    }
  }

  /** WriteZonePropertiesToFlash and its like: the check word first, then the record. */
  method WriteSlot(slots: array<Slot>, k: nat, image: seq<byte>)
    requires k < slots.Length && slots[k] == Blank(|image|)
    modifies slots
    ensures slots[..] == old(slots[..])[k := Stored(image)]
  {
    hide Crc16, Erased;
    var erased := IsErased(image);
    if !erased {
      var crc := Crc16(0xFFFF, image);
      slots[k] := slots[k].(crc := crc);
      slots[k] := slots[k].(image := image);
    }
  }

  /** EraseZonesFromFlash and its like. */
  method EraseSlots(slots: array<Slot>, first: nat, n: nat, size: nat)
    requires first + n <= slots.Length
    modifies slots
    ensures slots[..] == old(slots[..first]) + BlankAll(n, size) + old(slots[first + n..])
  {
    forall k | first <= k < first + n {
      slots[k] := Blank(size);
    }
  }

  /** ReadAllZonePropertiesFromFlash and its like. */
  method ReadSlots(slots: array<Slot>, first: nat, copy: array<seq<byte>>)
    requires first + copy.Length <= slots.Length
    modifies copy
    ensures copy[..] == CopiedAll(slots[first..first + copy.Length])
  {
    hide Checks, Erased;
    for k := 0 to copy.Length
      invariant forall j :: 0 <= j < k ==> copy[j] == Copied(slots[first + j])
    {
      var s := slots[first + k];
      if Checks(s) {
        copy[k] := s.image;
      } else {
        copy[k] := Erased(|s.image|);
      }
    }
  }

  /** WriteAllZonePropertiesToFlash and its like, on an erased sector. */
  method WriteSlots(slots: array<Slot>, first: nat, copy: array<seq<byte>>, size: nat)
    requires first + copy.Length <= slots.Length && slots[first..first + copy.Length] == BlankAll(copy.Length, size)
    requires forall k :: 0 <= k < copy.Length ==> |copy[k]| == size
    modifies slots
    ensures slots[..] == old(slots[..first]) + StoredAll(copy[..]) + old(slots[first + copy.Length..])
  {
    hide Stored;
    var n := copy.Length;
    forall j | first <= j < first + n
      ensures slots[j] == Blank(size)
    {
      assert slots[j] == slots[first..first + n][j - first] == BlankAll(n, size)[j - first];
    }
    for k := 0 to n
      invariant forall j :: first <= j < first + k ==> slots[j] == Stored(copy[j - first])
      invariant forall j :: first + k <= j < first + n ==> slots[j] == Blank(size)
      invariant slots[..first] == old(slots[..first]) && slots[first + n..] == old(slots[first + n..])
    {
      ghost var before := slots[..];
      WriteSlot(slots, first + k, copy[k]);
      assert forall j :: 0 <= j < slots.Length ==> slots[j] == before[first + k := Stored(copy[k])][j];
    }
    assert slots[first..first + n] == StoredAll(copy[..]);
    assert slots[..] == slots[..first] + slots[first..first + n] + slots[first + n..];
  }

  lemma InSector(all: seq<Slot>, first: nat, n: nat, k: nat, s: Slot)
    requires first + n <= |all| && k < n
    ensures all[..first] + all[first..first + n][k := s] + all[first + n..] == all[first + k := s]
  {
  }

  /** The sector erased, and the copies of its records written back with one of them replaced. */
  method EraseAndWrite(slots: array<Slot>, first: nat, copy: array<seq<byte>>, size: nat, ghost k: nat, ghost image: seq<byte>)
    requires first + copy.Length <= slots.Length && k < copy.Length && |image| == size && size in {32, 37, 44}
    requires AllSound(slots[first..first + copy.Length], size)
    requires copy[..] == CopiedAll(slots[first..first + copy.Length])[k := image]
    modifies slots
    ensures slots[..] == old(slots[..])[first + k := Stored(image)]
  {
    hide Stored, Copied, AllSound, Erased;
    ghost var all := slots[..];
    ghost var sector := all[first..first + copy.Length];
    assert slots[first..first + copy.Length] == sector;
    CopiesSized(sector, size, k, image);
    RewriteChangesOne(sector, size, k, image);
    EraseSlots(slots, first, copy.Length, size);
    assert slots[first..first + copy.Length] == BlankAll(copy.Length, size);
    assert forall j :: 0 <= j < copy.Length ==> copy[j] == copy[..][j];
    WriteSlots(slots, first, copy, size);
    InSector(all, first, copy.Length, k, Stored(image));
  }

  lemma CopiesSized(slots: seq<Slot>, size: nat, k: nat, image: seq<byte>)
    requires AllSound(slots, size) && k < |slots| && |image| == size
    ensures var copy := CopiedAll(slots)[k := image];
            forall j :: 0 <= j < |copy| ==> |copy[j]| == size
  {
    forall j | 0 <= j < |slots|
      ensures |Copied(slots[j])| == size
    {
      assert Sound(slots[j], size);
    }
  }

  // ---------- Loading ----------

  /** The bytes at one place of the records that pass the check, in order. */
  function Houses(slots: seq<Slot>, at: nat): (houses: seq<byte>)
    requires forall k :: 0 <= k < |slots| ==> |slots[k].image| > at
  {
    if slots == [] then []
    else
      var s := slots[|slots| - 1];
      Houses(slots[..|slots| - 1], at) + if Checks(s) then [s.image[at]] else []
  }

  /** The house of the controller: taken from the first record that has one, unless it is known. */
  function FirstHouse(known: byte, houses: seq<byte>): byte
    decreases |houses|
  {
    if known != 0 || houses == [] then known else FirstHouse(houses[0], houses[1..])
  }

  lemma {:induction false} FirstHouseNext(known: byte, houses: seq<byte>, next: byte)
    ensures FirstHouse(known, houses + [next]) == if FirstHouse(known, houses) == 0 then next else FirstHouse(known, houses)
    decreases |houses|
  {
    if houses != [] && known == 0 {
      assert (houses + [next])[1..] == houses[1..] + [next];
      FirstHouseNext(houses[0], houses[1..], next);
    } else if houses == [] && known == 0 {
      assert houses + [next] == [next] && [next][1..] == [];
    }
  }

  lemma HousesNext(slots: seq<Slot>, k: nat, at: nat, known: byte)
    requires forall j :: 0 <= j < |slots| ==> |slots[j].image| > at
    requires k < |slots|
    ensures var before, after := Houses(slots[..k], at), Houses(slots[..k + 1], at);
            if Checks(slots[k]) then
              |after| == |before| + 1
              && FirstHouse(known, after) ==
                 if FirstHouse(known, before) == 0 then slots[k].image[at] else FirstHouse(known, before)
            else after == before
  {
    hide Checks, FirstHouse;
    assert slots[..k + 1][..k] == slots[..k];
    FirstHouseNext(known, Houses(slots[..k], at), slots[k].image[at]);
  }
}
