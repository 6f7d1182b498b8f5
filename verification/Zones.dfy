/** Embedded/Sources/Zones.c: the table of zones, which keeps their settings in RAM and their
    properties in two kinds of flash slots. */
module Zones {
  import opened Crc
  import opened Fields
  import opened Slots
  import opened Words

  const MAX_NUMBER_OF_ZONES: nat := 100
  const MAX_SIZE_NAME_STRING: nat := 21
  const ELIOT_DEVICE_ID_SIZE: nat := 37
  const ZONE_SIZE: nat := 32
  const HOUSE_AT: nat := 30
  const NUM_ELIOT_PROPERTIES_IN_FLASH_SECTOR: nat := 50

  // ---------- Records and their bytes ----------

  /** What flash keeps of a zone. */
  datatype Record = Record(name: seq<byte>, groupId: word, deviceType: bv32, rampRate: byte, buildingId: byte, houseId: byte,
                           roomId: byte)

  /** The fields behind the name. */
  function Behind(pad: byte, r: Record): (tail: seq<byte>)
    ensures |tail| == 11
  {
    [pad, LowByte(r.groupId), HighByte(r.groupId),
     ByteOf(r.deviceType, 0), ByteOf(r.deviceType, 1), ByteOf(r.deviceType, 2), ByteOf(r.deviceType, 3),
     r.rampRate, r.buildingId, r.houseId, r.roomId]
  }

  /** A record written over a record image: the bytes in no field stay. */
  function Pack(over: seq<byte>, r: Record): (image: seq<byte>)
    requires |over| == ZONE_SIZE && |r.name| < MAX_SIZE_NAME_STRING
    ensures |image| == ZONE_SIZE
  {
    Printed(r.name, over[..21]) + Behind(over[21], r)
  }

  function FieldsIn(name: seq<byte>, tail: seq<byte>): Record
    requires |tail| == 11
  {
    Record(name, Join(tail[1], tail[2]), JoinFour(tail[3], tail[4], tail[5], tail[6]), tail[7], tail[8], tail[9], tail[10])
  }

  /** The record in an image. */
  function RecordIn(image: seq<byte>): (r: Record)
    requires |image| == ZONE_SIZE
  {
    FieldsIn(Text(image[..21]), image[21..])
  }

  lemma BehindRoundTrip(pad: byte, r: Record)
    ensures FieldsIn(r.name, Behind(pad, r)) == r
  {
    hide LowByte, HighByte, Join, ByteOf, JoinFour;
    JoinRoundTrip(r.groupId, r.deviceType);
  }

  /** A packed record can be read back, whatever it was packed over, and is never all ones. */
  lemma PackRoundTrip(over: seq<byte>, r: Record)
    requires |over| == ZONE_SIZE && IsText(r.name, MAX_SIZE_NAME_STRING)
    ensures RecordIn(Pack(over, r)) == r && Pack(over, r) != Erased(ZONE_SIZE)
  {
    hide Behind, FieldsIn;
    var image := Pack(over, r);
    var n := |r.name|;
    assert image[..21] == Printed(r.name, over[..21]) && image[21..] == Behind(over[21], r);
    TextOf(r.name, over[..21][n + 1..]);
    assert image[n] == 0;
    BehindRoundTrip(over[21], r);
  }

  /** The byte a boot takes the house from is the one a record keeps it in. */
  lemma HouseOfRecord(over: seq<byte>, r: Record)
    requires |over| == ZONE_SIZE && |r.name| < MAX_SIZE_NAME_STRING
    ensures Pack(over, r)[HOUSE_AT] == r.houseId
  {
    hide LowByte, HighByte, ByteOf, Printed;
    assert Pack(over, r)[HOUSE_AT] == Behind(over[21], r)[HOUSE_AT - 21];
  }

  // ---------- One zone ----------

  /** What RAM keeps of a zone. */
  datatype Volatile = Volatile(appContextId: bv32, state: bool, targetState: bool, powerLevel: byte, targetPowerLevel: byte)

  datatype Properties = Properties(v: Volatile, record: Record, eliotId: seq<byte>)

  /** A row of the table: the two flags stand for its pointers into flash. */
  datatype Entry = Entry(v: Volatile, zone: bool, eliot: bool)

  /** Everything kept of one zone: its row and its two slots. */
  datatype Cell = Cell(entry: Entry, zone: Slot, eliot: Slot)

  predicate Fits(p: Properties) {
    IsText(p.record.name, MAX_SIZE_NAME_STRING) && IsText(p.eliotId, ELIOT_DEVICE_ID_SIZE)
  }

  /** A zone slot that is blank or holds a record with a name. */
  predicate GoodZone(s: Slot) {
    Sound(s, ZONE_SIZE)
    && (s.image != Erased(ZONE_SIZE) ==> var name := RecordIn(s.image).name; IsText(name, MAX_SIZE_NAME_STRING) && name != [])
  }

  predicate GoodEliot(s: Slot) {
    Sound(s, ELIOT_DEVICE_ID_SIZE)
    && (s.image != Erased(ELIOT_DEVICE_ID_SIZE) ==> var id := Text(s.image); IsText(id, ELIOT_DEVICE_ID_SIZE) && id != [])
  }

  predicate Good(c: Cell) {
    GoodZone(c.zone) && GoodEliot(c.eliot)
  }

  predicate HasRecord(c: Cell) {
    c.zone.image != Erased(ZONE_SIZE)
  }

  predicate HasId(c: Cell) {
    c.eliot.image != Erased(ELIOT_DEVICE_ID_SIZE)
  }

  /** GetZoneProperties on a valid index. */
  function Get(c: Cell): Option<Properties>
    requires Good(c)
  {
    if c.entry.zone then Some(Properties(c.entry.v, RecordIn(c.zone.image), if c.entry.eliot then Text(c.eliot.image) else []))
    else None
  }

  /** The zone slot after its sector was rewritten with a record in it, or with the zone deleted. */
  function Rewritten(zone: Slot, r: Record): Slot
    requires GoodZone(zone) && IsText(r.name, MAX_SIZE_NAME_STRING)
  {
    Stored(if r.name != [] then Pack(Copied(zone), r) else Erased(ZONE_SIZE))
  }

  function RewrittenId(eliot: Slot, id: seq<byte>): Slot
    requires GoodEliot(eliot) && IsText(id, ELIOT_DEVICE_ID_SIZE)
  {
    Stored(if id != [] then Printed(id, Copied(eliot)) else Erased(ELIOT_DEVICE_ID_SIZE))
  }

  /** SetZoneProperties on a valid index. The records it fills in on its stack begin with whatever bytes
      stand there. */
  function Set(c: Cell, p: Properties, stack: seq<byte>, idStack: seq<byte>): Cell
    requires Good(c) && Fits(p) && |stack| == ZONE_SIZE && |idStack| == ELIOT_DEVICE_ID_SIZE
  {
    if !HasRecord(c) then
      if p.record.name != [] then
        var addId := !HasId(c) && p.eliotId != [];
        Cell(Entry(p.v, true, addId), Stored(Pack(stack, p.record)), if addId then Stored(Printed(p.eliotId, idStack)) else c.eliot)
      else c.(entry := Entry(p.v, false, false))
    else
      var same, sameId := p.record == RecordIn(c.zone.image), p.eliotId == Text(c.eliot.image);
      Cell(Entry(p.v, same || p.record.name != [], sameId || p.eliotId != []),
           if same then c.zone else Rewritten(c.zone, p.record),
           if sameId then c.eliot else RewrittenId(c.eliot, p.eliotId))
  }

  const DEFAULTS := Volatile(0, false, false, 100, 100)

  /** InitializeZoneArray and LoadZonesFromFlash, on one zone. */
  function Reboot(c: Cell): Cell {
    c.(entry := Entry(DEFAULTS, Checks(c.zone), Checks(c.zone) && Checks(c.eliot)))
  }

  predicate HasAddress(c: Cell, groupId: word, buildingId: byte, houseId: byte)
    requires Good(c)
  {
    var r := RecordIn(c.zone.image);
    c.entry.zone && r.name != [] && r.groupId == groupId && r.buildingId == buildingId && r.houseId == houseId
  }

  predicate IsAvailable(c: Cell)
    requires Good(c)
  {
    c.entry.zone ==> RecordIn(c.zone.image).name == []
  }

  // ---------- The table ----------

  class Table {
    const entries: array<Entry>
    const zones: array<Slot>
    const eliots: array<Slot>
    const zoneCopy: array<seq<byte>>
    const eliotCopy: array<seq<byte>>
    var houseId: byte

    ghost predicate Apart()
    {
      && entries.Length == zones.Length == eliots.Length == zoneCopy.Length == MAX_NUMBER_OF_ZONES
      && eliotCopy.Length == NUM_ELIOT_PROPERTIES_IN_FLASH_SECTOR
      && zones != eliots && zoneCopy != eliotCopy
      && entries as object != zones && entries as object != eliots
    }

    ghost predicate Valid()
      reads zones, eliots
    {
      && Apart()
      && (forall k :: 0 <= k < MAX_NUMBER_OF_ZONES ==> GoodZone(zones[k]))
      && (forall k :: 0 <= k < MAX_NUMBER_OF_ZONES ==> GoodEliot(eliots[k]))
    }

    function At(k: nat): Cell
      requires Apart() && k < MAX_NUMBER_OF_ZONES
      reads entries, zones, eliots
    {
      Cell(entries[k], zones[k], eliots[k])
    }

    /** InitializeZoneArray */
    method InitializeZoneArray()
      requires Apart()
      modifies entries
      ensures forall k :: 0 <= k < MAX_NUMBER_OF_ZONES ==> entries[k] == Entry(DEFAULTS, false, false)
    {
      for k := 0 to MAX_NUMBER_OF_ZONES
        invariant forall j :: 0 <= j < k ==> entries[j] == Entry(DEFAULTS, false, false)
      {
        entries[k] := Entry(Volatile(0, false, false, 100, 100), false, false);
      }
    }

    /** One turn of the loop of LoadZonesFromFlash. */
    method LoadZone(k: nat) returns (n: nat)
      requires Valid() && k < MAX_NUMBER_OF_ZONES
      modifies entries, this`houseId
      ensures entries[..] == old(entries[..])[k := LoadedEntry(old(entries[k]), zones[k], eliots[k])]
      ensures n == if Checks(zones[k]) then 1 else 0
      ensures houseId == if old(houseId) == 0 && Checks(zones[k]) then zones[k].image[HOUSE_AT] else old(houseId)
    {
      hide Checks;
      n := 0;
      if Checks(zones[k]) {
        if houseId == 0 {
          houseId := RecordIn(zones[k].image).houseId;
        }
        entries[k] := Entry(entries[k].v, true, Checks(eliots[k]));
        n := 1;
      }
    }

    /** LoadZonesFromFlash */
    method LoadZonesFromFlash() returns (loaded: nat)
      requires Valid()
      modifies entries, this`houseId
      ensures forall k :: 0 <= k < MAX_NUMBER_OF_ZONES ==> entries[k] == LoadedEntry(old(entries[k]), zones[k], eliots[k])
      ensures loaded == |Houses(zones[..], HOUSE_AT)| && houseId == FirstHouse(old(houseId), Houses(zones[..], HOUSE_AT))
    {
      hide Checks, GoodZone, GoodEliot, LoadedEntry;
      loaded := 0;
      ghost var slots := zones[..];
      AllSoundZones(slots);
      for k := 0 to MAX_NUMBER_OF_ZONES
        invariant forall j :: k <= j < MAX_NUMBER_OF_ZONES ==> entries[j] == old(entries[j])
        invariant forall j :: 0 <= j < k ==> entries[j] == LoadedEntry(old(entries[j]), zones[j], eliots[j])
        invariant loaded == |Houses(slots[..k], HOUSE_AT)| && houseId == FirstHouse(old(houseId), Houses(slots[..k], HOUSE_AT))
      {
        HousesNext(slots, k, HOUSE_AT, old(houseId));
        ghost var before := entries[..];
        var n := LoadZone(k);
        assert forall j :: 0 <= j < MAX_NUMBER_OF_ZONES ==>
                 entries[j] == before[k := LoadedEntry(before[k], zones[k], eliots[k])][j];
        loaded := loaded + n;
      }
      assert slots[..MAX_NUMBER_OF_ZONES] == slots;
    }

    /** What RFM100Transmit_Task does of this at boot. */
    method Restart()
      requires Valid()
      modifies entries, this`houseId
      ensures forall k :: 0 <= k < MAX_NUMBER_OF_ZONES ==> At(k) == Reboot(old(At(k)))
    {
      hide Checks, GoodZone, GoodEliot;
      InitializeZoneArray();
      var loaded := LoadZonesFromFlash();
    }

    /** GetZoneProperties */
    method GetZoneProperties(zoneIndex: nat) returns (p: Option<Properties>)
      requires Valid()
      ensures p == if zoneIndex < MAX_NUMBER_OF_ZONES then Get(At(zoneIndex)) else None
    {
      hide RecordIn, Text;
      p := None;
      if zoneIndex < MAX_NUMBER_OF_ZONES && entries[zoneIndex].zone {
        var id := if entries[zoneIndex].eliot then Text(eliots[zoneIndex].image) else [];
        p := Some(Properties(entries[zoneIndex].v, RecordIn(zones[zoneIndex].image), id));
      }
    }

    /** The sector of zones read, one of them replaced or cleared, erased and written again. */
    method RewriteZones(k: nat, r: Record)
      requires Valid() && k < MAX_NUMBER_OF_ZONES && IsText(r.name, MAX_SIZE_NAME_STRING)
      modifies zones, zoneCopy
      ensures zones[..] == old(zones[..])[k := Rewritten(old(zones[k]), r)]
    {
      hide Pack, Erased, Stored, Copied, GoodEliot, Sound, GoodZone;
      ghost var slots := zones[..];
      AllSoundZones(slots);
      ReadSlots(zones, 0, zoneCopy);
      assert zones[0..zoneCopy.Length] == slots;
      ghost var copy := CopiedAll(slots);
      assert zoneCopy[k] == copy[k] && |copy[k]| == ZONE_SIZE;
      if r.name != [] {
        zoneCopy[k] := Pack(zoneCopy[k], r);
      } else {
        zoneCopy[k] := Erased(ZONE_SIZE);
      }
      EraseAndWrite(zones, 0, zoneCopy, ZONE_SIZE, k, zoneCopy[k]);
    }

    /** The same for the sector of Eliot ids the zone is in. */
    method RewriteEliots(zoneIndex: nat, id: seq<byte>)
      requires Valid() && zoneIndex < MAX_NUMBER_OF_ZONES && IsText(id, ELIOT_DEVICE_ID_SIZE)
      modifies eliots, eliotCopy
      ensures eliots[..] == old(eliots[..])[zoneIndex := RewrittenId(old(eliots[zoneIndex]), id)]
    {
      hide Printed, Erased, Stored, Copied, GoodZone, Sound, GoodEliot;
      var n := NUM_ELIOT_PROPERTIES_IN_FLASH_SECTOR;
      var first, k := zoneIndex / n * n, zoneIndex % n;
      assert first + k == zoneIndex && first + n <= MAX_NUMBER_OF_ZONES;
      ghost var slots := eliots[first..first + n];
      AllSoundEliots(slots);
      ReadSlots(eliots, first, eliotCopy);
      assert slots[k] == eliots[zoneIndex];
      ghost var copy := CopiedAll(slots);
      assert eliotCopy[k] == copy[k] && |copy[k]| == ELIOT_DEVICE_ID_SIZE;
      if id != [] {
        eliotCopy[k] := Printed(id, eliotCopy[k]);
      } else {
        eliotCopy[k] := Erased(ELIOT_DEVICE_ID_SIZE);
      }
      EraseAndWrite(eliots, first, eliotCopy, ELIOT_DEVICE_ID_SIZE, k, eliotCopy[k]);
    }

    /** SetZoneProperties for a zone whose flash slot is blank. */
    method AddZone(k: nat, p: Properties, stack: seq<byte>, idStack: seq<byte>)
      requires Valid() && k < MAX_NUMBER_OF_ZONES && Fits(p) && |stack| == ZONE_SIZE && |idStack| == ELIOT_DEVICE_ID_SIZE
      requires !HasRecord(At(k)) && entries[k] == Entry(p.v, true, true)
      modifies entries, zones, eliots
      ensures var c := Set(old(At(k)), p, stack, idStack);
              entries[..] == old(entries[..])[k := c.entry] && zones[..] == old(zones[..])[k := c.zone]
              && eliots[..] == old(eliots[..])[k := c.eliot]
    {
      hide Pack, Printed, Erased, Stored, RecordIn, Text;
      BlankOrRecord(At(k));
      if p.record.name != [] {
        WriteSlot(zones, k, Pack(stack, p.record));
        var blank := IsErased(eliots[k].image);
        if blank {
          if p.eliotId != [] {
            WriteSlot(eliots, k, Printed(p.eliotId, idStack));
          } else {
            entries[k] := entries[k].(eliot := false);
          }
        } else {
          entries[k] := entries[k].(eliot := false);
        }
      } else {
        entries[k] := Entry(p.v, false, false);
      }
    }

    /** SetZoneProperties for a zone whose flash slot is in use. */
    method UpdateZone(k: nat, p: Properties, ghost stack: seq<byte>, ghost idStack: seq<byte>)
      requires Valid() && k < MAX_NUMBER_OF_ZONES && Fits(p) && |stack| == ZONE_SIZE && |idStack| == ELIOT_DEVICE_ID_SIZE
      requires HasRecord(At(k)) && entries[k] == Entry(p.v, true, true)
      modifies entries, zones, eliots, zoneCopy, eliotCopy
      ensures var c := Set(old(At(k)), p, stack, idStack);
              entries[..] == old(entries[..])[k := c.entry] && zones[..] == old(zones[..])[k := c.zone]
              && eliots[..] == old(eliots[..])[k := c.eliot]
    {
      hide RecordIn, Text, Rewritten, RewrittenId, Erased;
      if p.record != RecordIn(zones[k].image) {
        RewrittenIsGood(zones[k], p.record);
        RewriteZones(k, p.record);
        if p.record.name == [] {
          entries[k] := entries[k].(zone := false);
        }
      }
      if p.eliotId != Text(eliots[k].image) {
        RewriteEliots(k, p.eliotId);
        if p.eliotId == [] {
          entries[k] := entries[k].(eliot := false);
        }
      }
    }

    /** SetZoneProperties */
    method SetZoneProperties(zoneIndex: nat, p: Properties, stack: seq<byte>, idStack: seq<byte>) returns (propertiesSet: bool)
      requires Valid() && Fits(p) && |stack| == ZONE_SIZE && |idStack| == ELIOT_DEVICE_ID_SIZE
      modifies entries, zones, eliots, zoneCopy, eliotCopy
      ensures Valid() && propertiesSet == (zoneIndex < MAX_NUMBER_OF_ZONES)
      ensures propertiesSet ==>
                var c := Set(old(At(zoneIndex)), p, stack, idStack);
                entries[..] == old(entries[..])[zoneIndex := c.entry] && zones[..] == old(zones[..])[zoneIndex := c.zone]
                && eliots[..] == old(eliots[..])[zoneIndex := c.eliot]
      ensures !propertiesSet ==> entries[..] == old(entries[..]) && zones[..] == old(zones[..]) && eliots[..] == old(eliots[..])
    {
      hide Erased, Set;
      propertiesSet := false;
      if zoneIndex < MAX_NUMBER_OF_ZONES {
        ghost var all, c := entries[..], At(zoneIndex);
        SetIgnoresEntry(c, Entry(p.v, true, true), p, stack, idStack);
        SetIsGood(c, p, stack, idStack);
        entries[zoneIndex] := Entry(p.v, true, true);
        var blank := IsErased(zones[zoneIndex].image);
        if blank {
          AddZone(zoneIndex, p, stack, idStack);
        } else {
          UpdateZone(zoneIndex, p, stack, idStack);
        }
        propertiesSet := true;
      }
    }

    /** GetZoneIndex: the first zone with a name that has the address. */
    method GetZoneIndex(groupId: word, buildingId: byte, houseId: byte) returns (zoneIndex: nat)
      requires Valid()
      ensures zoneIndex <= MAX_NUMBER_OF_ZONES
      ensures zoneIndex < MAX_NUMBER_OF_ZONES ==> HasAddress(At(zoneIndex), groupId, buildingId, houseId)
      ensures forall k :: 0 <= k < zoneIndex ==> !HasAddress(At(k), groupId, buildingId, houseId)
    {
      hide RecordIn, Checks, Text, IsText;
      zoneIndex := 0;
      while zoneIndex < MAX_NUMBER_OF_ZONES
        invariant zoneIndex <= MAX_NUMBER_OF_ZONES
        invariant forall k :: 0 <= k < zoneIndex ==> !HasAddress(At(k), groupId, buildingId, houseId)
      {
        if entries[zoneIndex].zone {
          var r := RecordIn(zones[zoneIndex].image);
          if r.name != [] && r.groupId == groupId && r.buildingId == buildingId && r.houseId == houseId {
            break;
          }
        }
        zoneIndex := zoneIndex + 1;
      }
    }

    /** GetAvailableZoneIndex: the first without a zone. */
    method GetAvailableZoneIndex() returns (zoneIndex: nat)
      requires Valid()
      ensures zoneIndex <= MAX_NUMBER_OF_ZONES
      ensures zoneIndex < MAX_NUMBER_OF_ZONES ==> IsAvailable(At(zoneIndex))
      ensures forall k :: 0 <= k < zoneIndex ==> !IsAvailable(At(k))
    {
      hide RecordIn, Checks, Text, IsText;
      zoneIndex := 0;
      while zoneIndex < MAX_NUMBER_OF_ZONES
        invariant zoneIndex <= MAX_NUMBER_OF_ZONES
        invariant forall k :: 0 <= k < zoneIndex ==> !IsAvailable(At(k))
      {
        if entries[zoneIndex].zone && RecordIn(zones[zoneIndex].image).name == [] {
          break;
        } else if !entries[zoneIndex].zone {
          break;
        }
        zoneIndex := zoneIndex + 1;
      }
    }
  }

  lemma AllSoundZones(slots: seq<Slot>)
    requires forall k :: 0 <= k < |slots| ==> GoodZone(slots[k])
    ensures AllSound(slots, ZONE_SIZE) && forall k :: 0 <= k < |slots| ==> |slots[k].image| == ZONE_SIZE
  {
  }

  lemma AllSoundEliots(slots: seq<Slot>)
    requires forall k :: 0 <= k < |slots| ==> GoodEliot(slots[k])
    ensures AllSound(slots, ELIOT_DEVICE_ID_SIZE) && forall k :: 0 <= k < |slots| ==> |slots[k].image| == ELIOT_DEVICE_ID_SIZE
  {
  }

  lemma BlankOrRecord(c: Cell)
    requires Good(c)
    ensures HasRecord(c) || c.zone == Blank(ZONE_SIZE)
    ensures HasId(c) || c.eliot == Blank(ELIOT_DEVICE_ID_SIZE)
  {
  }

  lemma SetIgnoresEntry(c: Cell, e: Entry, p: Properties, stack: seq<byte>, idStack: seq<byte>)
    requires Good(c) && Fits(p) && |stack| == ZONE_SIZE && |idStack| == ELIOT_DEVICE_ID_SIZE
    ensures Set(c.(entry := e), p, stack, idStack) == Set(c, p, stack, idStack)
  {
    hide Pack, Printed, RecordIn, Text, Rewritten, RewrittenId, Erased;
  }

  lemma SetIsGood(c: Cell, p: Properties, stack: seq<byte>, idStack: seq<byte>)
    requires Good(c) && Fits(p) && |stack| == ZONE_SIZE && |idStack| == ELIOT_DEVICE_ID_SIZE
    ensures Good(Set(c, p, stack, idStack))
  {
    hide Pack, Printed, RecordIn, Text, Checks, Copied, Rewritten, RewrittenId, Erased;
    if p.record.name != [] {
      PackRoundTrip(stack, p.record);
      StoredIsSound(Pack(stack, p.record));
    }
    if p.eliotId != [] {
      PrintRoundTrip(p.eliotId, idStack);
      StoredIsSound(Printed(p.eliotId, idStack));
    }
    RewrittenIsGood(c.zone, p.record);
    RewrittenIdIsGood(c.eliot, p.eliotId);
  }

  lemma RewrittenIdIsGood(eliot: Slot, id: seq<byte>)
    requires GoodEliot(eliot) && IsText(id, ELIOT_DEVICE_ID_SIZE)
    ensures GoodEliot(RewrittenId(eliot, id))
  {
    hide Printed, Text, Copied, Checks;
    PrintRoundTrip(id, Copied(eliot));
    StoredIsSound(Printed(id, Copied(eliot)));
    StoredIsSound(Erased(ELIOT_DEVICE_ID_SIZE));
  }

  lemma RewrittenIsGood(zone: Slot, r: Record)
    requires GoodZone(zone) && IsText(r.name, MAX_SIZE_NAME_STRING)
    ensures GoodZone(Rewritten(zone, r))
  {
    hide Pack, RecordIn, Copied, Checks;
    PackRoundTrip(Copied(zone), r);
    StoredIsSound(Pack(Copied(zone), r));
    StoredIsSound(Erased(ZONE_SIZE));
  }

  function LoadedEntry(e: Entry, zone: Slot, eliot: Slot): Entry {
    if Checks(zone) then Entry(e.v, true, Checks(eliot)) else e
  }
}
