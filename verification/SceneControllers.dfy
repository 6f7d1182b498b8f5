/** Embedded/Sources/SceneController.c: the store of scene controllers, one kind of slot and a table of
    pointers into it. */
module SceneControllers {
  import opened Crc
  import opened Fields
  import opened Slots
  import opened Words

  const MAX_NUMBER_OF_SCENE_CONTROLLERS: nat := 40
  const MAX_SIZE_NAME_STRING: nat := 21
  const CONTROLLER_SIZE: nat := 44
  const HOUSE_AT: nat := 37

  datatype Bank = Bank(sceneId: byte, toggleable: byte, toggled: byte)

  datatype Properties = Properties(name: seq<byte>, bank0: Bank, bank1: Bank, bank2: Bank, bank3: Bank, groupId: word,
                                   buildingId: byte, houseId: byte, roomId: byte, nightMode: byte, deviceType: bv32)

  /** The fields behind the name. */
  function Behind(pad: byte, p: Properties): (tail: seq<byte>)
    ensures |tail| == 23
  {
    [p.bank0.sceneId, p.bank0.toggleable, p.bank0.toggled, p.bank1.sceneId, p.bank1.toggleable, p.bank1.toggled,
     p.bank2.sceneId, p.bank2.toggleable, p.bank2.toggled, p.bank3.sceneId, p.bank3.toggleable, p.bank3.toggled,
     pad, LowByte(p.groupId), HighByte(p.groupId), p.buildingId, p.houseId, p.roomId, p.nightMode,
     ByteOf(p.deviceType, 0), ByteOf(p.deviceType, 1), ByteOf(p.deviceType, 2), ByteOf(p.deviceType, 3)]
  }

  /** Properties written over a record image: the bytes in no field stay. */
  function Pack(over: seq<byte>, p: Properties): (image: seq<byte>)
    requires |over| == CONTROLLER_SIZE && |p.name| < MAX_SIZE_NAME_STRING
    ensures |image| == CONTROLLER_SIZE
  {
    Printed(p.name, over[..21]) + Behind(over[33], p)
  }

  function BankIn(tail: seq<byte>, at: nat): Bank
    requires at + 2 < |tail|
  {
    Bank(tail[at], tail[at + 1], tail[at + 2])
  }

  function FieldsIn(name: seq<byte>, tail: seq<byte>): Properties
    requires |tail| == 23
  {
    Properties(name, BankIn(tail, 0), BankIn(tail, 3), BankIn(tail, 6), BankIn(tail, 9),
               Join(tail[13], tail[14]), tail[15], tail[16], tail[17], tail[18],
               JoinFour(tail[19], tail[20], tail[21], tail[22]))
  }

  function PropertiesIn(image: seq<byte>): Properties
    requires |image| == CONTROLLER_SIZE
  {
    FieldsIn(Text(image[..21]), image[21..])
  }

  predicate Fits(p: Properties) {
    IsText(p.name, MAX_SIZE_NAME_STRING)
  }

  lemma BehindRoundTrip(pad: byte, p: Properties)
    ensures FieldsIn(p.name, Behind(pad, p)) == p
  {
    hide LowByte, HighByte, Join, ByteOf, JoinFour;
    JoinRoundTrip(p.groupId, p.deviceType);
  }

  lemma PackRoundTrip(over: seq<byte>, p: Properties)
    requires |over| == CONTROLLER_SIZE && Fits(p)
    ensures PropertiesIn(Pack(over, p)) == p && Pack(over, p) != Erased(CONTROLLER_SIZE)
  {
    hide Behind, FieldsIn;
    var image := Pack(over, p);
    var n := |p.name|;
    assert image[..21] == Printed(p.name, over[..21]) && image[21..] == Behind(over[33], p);
    TextOf(p.name, over[..21][n + 1..]);
    assert image[n] == 0;
    BehindRoundTrip(over[33], p);
  }

  /** The byte a boot takes the house from is the one a scene controller keeps it in. */
  lemma HouseOfRecord(over: seq<byte>, p: Properties)
    requires |over| == CONTROLLER_SIZE && |p.name| < MAX_SIZE_NAME_STRING
    ensures Pack(over, p)[HOUSE_AT] == p.houseId
  {
    hide LowByte, HighByte, ByteOf, Printed;
    assert Pack(over, p)[HOUSE_AT] == Behind(over[33], p)[HOUSE_AT - 21];
  }

  // ---------- One scene controller ----------

  /** Whether the table points at the slot, and the slot. */
  datatype Cell = Cell(known: bool, slot: Slot)

  predicate HasRecord(s: Slot) {
    s.image != Erased(CONTROLLER_SIZE)
  }

  /** A slot that is blank or holds a scene controller with a name. */
  predicate GoodSlot(s: Slot) {
    Sound(s, CONTROLLER_SIZE) && (HasRecord(s) ==> Fits(PropertiesIn(s.image)) && PropertiesIn(s.image).name != [])
  }

  /** GetSceneControllerProperties on a valid index. */
  function Get(c: Cell): Option<Properties>
    requires GoodSlot(c.slot)
  {
    if c.known then Some(PropertiesIn(c.slot.image)) else None
  }

  function Rewritten(s: Slot, p: Properties): Slot
    requires GoodSlot(s) && Fits(p)
  {
    Stored(if p.name != [] then Pack(Copied(s), p) else Erased(CONTROLLER_SIZE))
  }

  /** SetSceneControllerProperties on a valid index, with the bytes that stand on its stack. */
  function Set(c: Cell, p: Properties, stack: seq<byte>): Cell
    requires GoodSlot(c.slot) && Fits(p) && |stack| == CONTROLLER_SIZE
  {
    if !HasRecord(c.slot) then
      if p.name != [] then Cell(true, Stored(Pack(stack, p))) else Cell(false, c.slot)
    else if p == PropertiesIn(c.slot.image) then Cell(true, c.slot)
    else Cell(p.name != [], Rewritten(c.slot, p))
  }

  /** InitializeSceneControllerArray and LoadSceneControllersFromFlash, on one scene controller. */
  function Reboot(c: Cell): Cell {
    Cell(Checks(c.slot), c.slot)
  }

  class Table {
    const known: array<bool>
    const slots: array<Slot>
    const copy: array<seq<byte>>
    var houseId: byte

    ghost predicate Apart()
    {
      known.Length == slots.Length == copy.Length == MAX_NUMBER_OF_SCENE_CONTROLLERS && known as object != slots
    }

    ghost predicate Valid()
      reads slots
    {
      Apart() && forall k :: 0 <= k < MAX_NUMBER_OF_SCENE_CONTROLLERS ==> GoodSlot(slots[k])
    }

    ghost function At(k: nat): Cell
      requires Apart() && k < MAX_NUMBER_OF_SCENE_CONTROLLERS
      reads known, slots
    {
      Cell(known[k], slots[k])
    }

    /** InitializeSceneControllerArray */
    method InitializeSceneControllerArray()
      requires Apart()
      modifies known
      ensures forall k :: 0 <= k < MAX_NUMBER_OF_SCENE_CONTROLLERS ==> !known[k]
    {
      for k := 0 to MAX_NUMBER_OF_SCENE_CONTROLLERS
        invariant forall j :: 0 <= j < k ==> !known[j]
      {
        known[k] := false;
      }
    }

    /** LoadSceneControllersFromFlash */
    method LoadSceneControllersFromFlash() returns (loaded: nat)
      requires Valid()
      modifies known, this`houseId
      ensures forall k :: 0 <= k < MAX_NUMBER_OF_SCENE_CONTROLLERS ==> known[k] == (old(known[k]) || Checks(slots[k]))
      ensures loaded == |Houses(slots[..], HOUSE_AT)| && houseId == FirstHouse(old(houseId), Houses(slots[..], HOUSE_AT))
    {
      hide Checks, GoodSlot;
      loaded := 0;
      ghost var all := slots[..];
      AllSlotsSound(all);
      for k := 0 to MAX_NUMBER_OF_SCENE_CONTROLLERS
        invariant forall j :: k <= j < MAX_NUMBER_OF_SCENE_CONTROLLERS ==> known[j] == old(known[j])
        invariant forall j :: 0 <= j < k ==> known[j] == (old(known[j]) || Checks(slots[j]))
        invariant loaded == |Houses(all[..k], HOUSE_AT)| && houseId == FirstHouse(old(houseId), Houses(all[..k], HOUSE_AT))
      {
        HousesNext(all, k, HOUSE_AT, old(houseId));
        var s := slots[k];
        if Checks(s) {
          if houseId == 0 {
            houseId := s.image[HOUSE_AT];
          }
          known[k] := true;
          loaded := loaded + 1;
        }
      }
      assert all[..MAX_NUMBER_OF_SCENE_CONTROLLERS] == all;
    }

    /** What RFM100Transmit_Task does of this at boot. */
    method Restart()
      requires Valid()
      modifies known, this`houseId
      ensures forall k :: 0 <= k < MAX_NUMBER_OF_SCENE_CONTROLLERS ==> At(k) == Reboot(old(At(k)))
    {
      hide Checks, GoodSlot;
      InitializeSceneControllerArray();
      var loaded := LoadSceneControllersFromFlash();
    }

    /** GetSceneControllerProperties */
    method GetSceneControllerProperties(index: nat) returns (p: Option<Properties>)
      requires Valid()
      ensures p == if index < MAX_NUMBER_OF_SCENE_CONTROLLERS then Get(At(index)) else None
    {
      hide PropertiesIn, Checks;
      p := None;
      if index < MAX_NUMBER_OF_SCENE_CONTROLLERS && known[index] {
        p := Some(PropertiesIn(slots[index].image));
      }
    }

    /** The sector read, one scene controller replaced or cleared, erased and written again. */
    method Rewrite(k: nat, p: Properties)
      requires Valid() && k < MAX_NUMBER_OF_SCENE_CONTROLLERS && Fits(p)
      modifies slots, copy
      ensures slots[..] == old(slots[..])[k := Rewritten(old(slots[k]), p)]
    {
      hide Pack, Erased, Stored, Copied, Sound, GoodSlot;
      ghost var all := slots[..];
      AllSlotsSound(all);
      ReadSlots(slots, 0, copy);
      assert slots[0..copy.Length] == all;
      ghost var images := CopiedAll(all);
      assert copy[k] == images[k] && |images[k]| == CONTROLLER_SIZE;
      if p.name != [] {
        copy[k] := Pack(copy[k], p);
      } else {
        copy[k] := Erased(CONTROLLER_SIZE);
      }
      EraseAndWrite(slots, 0, copy, CONTROLLER_SIZE, k, copy[k]);
    }

    /** SetSceneControllerProperties */
    method SetSceneControllerProperties(index: nat, p: Properties, stack: seq<byte>) returns (propertiesSet: bool)
      requires Valid() && Fits(p) && |stack| == CONTROLLER_SIZE
      modifies known, slots, copy
      ensures Valid() && propertiesSet == (index < MAX_NUMBER_OF_SCENE_CONTROLLERS)
      ensures propertiesSet ==>
                var c := Set(old(At(index)), p, stack);
                known[..] == old(known[..])[index := c.known] && slots[..] == old(slots[..])[index := c.slot]
      ensures !propertiesSet ==> known[..] == old(known[..]) && slots[..] == old(slots[..])
    {
      hide Erased, Pack, PropertiesIn, Rewritten, Stored, Checks;
      propertiesSet := false;
      if index < MAX_NUMBER_OF_SCENE_CONTROLLERS {
        SetIsGood(At(index), p, stack);
        known[index] := true;
        var blank := IsErased(slots[index].image);
        if blank {
          if p.name != [] {
            WriteSlot(slots, index, Pack(stack, p));
          } else {
            known[index] := false;
          }
        } else if p != PropertiesIn(slots[index].image) {
          Rewrite(index, p);
          if p.name == [] {
            known[index] := false;
          }
        }
        propertiesSet := true;
      }
    }
  }

  lemma AllSlotsSound(slots: seq<Slot>)
    requires forall k :: 0 <= k < |slots| ==> GoodSlot(slots[k])
    ensures AllSound(slots, CONTROLLER_SIZE) && forall k :: 0 <= k < |slots| ==> |slots[k].image| == CONTROLLER_SIZE
  {
  }

  /** What stands in a slot after a set, whatever stood there before. */
  lemma SetIsGood(c: Cell, p: Properties, stack: seq<byte>)
    requires GoodSlot(c.slot) && Fits(p) && |stack| == CONTROLLER_SIZE
    ensures var after := Set(c, p, stack);
            GoodSlot(after.slot) && after.known == (p.name != []) && (HasRecord(after.slot) <==> p.name != [])
            && (p.name != [] ==> PropertiesIn(after.slot.image) == p)
  {
    hide Pack, PropertiesIn, Checks, Copied, Erased;
    PackRoundTrip(stack, p);
    PackRoundTrip(Copied(c.slot), p);
    StoredIsSound(Pack(stack, p));
    StoredIsSound(Pack(Copied(c.slot), p));
    StoredIsSound(Erased(CONTROLLER_SIZE));
  }

  // ---------- Runs ----------

  /** The table points at exactly the slots with something in them. */
  predicate Coherent(c: Cell) {
    GoodSlot(c.slot) && (c.known <==> HasRecord(c.slot))
  }

  function Meant(p: Properties): Option<Properties> {
    if p.name != [] then Some(p) else None
  }

  /** Setting a scene controller shows what was set, or nothing after a delete. */
  lemma SetIsSeen(c: Cell, p: Properties, stack: seq<byte>)
    requires GoodSlot(c.slot) && Fits(p) && |stack| == CONTROLLER_SIZE
    ensures Coherent(Set(c, p, stack)) && Get(Set(c, p, stack)) == Meant(p)
  {
    hide Set, PropertiesIn, GoodSlot;
    SetIsGood(c, p, stack);
  }

  lemma RebootAgrees(c: Cell)
    requires Coherent(c)
    ensures Reboot(c) == c
  {
    hide Checks, Erased, PropertiesIn;
    SoundChecks(c.slot, CONTROLLER_SIZE);
  }

  datatype Step = SetController(index: nat, p: Properties, stack: seq<byte>) | Restarted

  predicate Proper(s: Step) {
    s.SetController? ==> Fits(s.p) && |s.stack| == CONTROLLER_SIZE
  }

  predicate AllCoherent(cs: seq<Cell>) {
    |cs| == MAX_NUMBER_OF_SCENE_CONTROLLERS && forall k :: 0 <= k < |cs| ==> Coherent(cs[k])
  }

  function Take(cs: seq<Cell>, s: Step): (r: seq<Cell>)
    requires AllCoherent(cs) && Proper(s)
    ensures |r| == |cs|
  {
    match s
    case SetController(i, p, stack) => if i < MAX_NUMBER_OF_SCENE_CONTROLLERS then cs[i := Set(cs[i], p, stack)] else cs
    case Restarted => seq(|cs|, k requires 0 <= k < |cs| => Reboot(cs[k]))
  }

  function Shown(cs: seq<Cell>): (shown: seq<Option<Properties>>)
    requires AllCoherent(cs)
    ensures |shown| == |cs|
  {
    seq(|cs|, k requires 0 <= k < |cs| => Get(cs[k]))
  }

  function Model(shown: seq<Option<Properties>>, s: Step): seq<Option<Properties>> {
    match s
    case SetController(i, p, _) => if i < |shown| then shown[i := Meant(p)] else shown
    case Restarted => shown
  }

  lemma StepAgrees(cs: seq<Cell>, s: Step)
    requires AllCoherent(cs) && Proper(s)
    ensures AllCoherent(Take(cs, s)) && Shown(Take(cs, s)) == Model(Shown(cs), s)
  {
    hide GoodSlot, HasRecord, Set, Reboot, Fits, Get;
    match s
    case SetController(i, p, stack) =>
      if i < MAX_NUMBER_OF_SCENE_CONTROLLERS {
        SetIsSeen(cs[i], p, stack);
        assert Shown(Take(cs, s)) == Model(Shown(cs), s);
      }
    case Restarted =>
      forall k | 0 <= k < |cs|
        ensures Reboot(cs[k]) == cs[k]
      {
        RebootAgrees(cs[k]);
      }
      assert Take(cs, s) == cs;
  }

  function TakeAll(cs: seq<Cell>, steps: seq<Step>): seq<Cell>
    requires AllCoherent(cs) && forall s :: s in steps ==> Proper(s)
    decreases |steps|
  {
    if steps == [] then cs
    else
      assert steps[0] in steps && forall s :: s in steps[1..] ==> s in steps;
      StepAgrees(cs, steps[0]);
      TakeAll(Take(cs, steps[0]), steps[1..])
  }

  function ModelAll(shown: seq<Option<Properties>>, steps: seq<Step>): seq<Option<Properties>>
    decreases |steps|
  {
    if steps == [] then shown else ModelAll(Model(shown, steps[0]), steps[1..])
  }

  /** Over any run of sets, deletes and reboots the table shows what a plain sequence would. */
  lemma {:induction false} StoreAgreesWithMap(cs: seq<Cell>, steps: seq<Step>)
    requires AllCoherent(cs) && forall s :: s in steps ==> Proper(s)
    ensures AllCoherent(TakeAll(cs, steps)) && Shown(TakeAll(cs, steps)) == ModelAll(Shown(cs), steps)
    decreases |steps|
  {
    hide Coherent, Take, Model, Proper;
    if steps != [] {
      assert steps[0] in steps && forall s :: s in steps[1..] ==> s in steps;
      StepAgrees(cs, steps[0]);
      StoreAgreesWithMap(Take(cs, steps[0]), steps[1..]);
    }
  }
}
