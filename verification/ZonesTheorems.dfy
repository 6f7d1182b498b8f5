/** The store of zones agrees with a map from indexes to zones, over runs with reboots anywhere. */
module ZonesTheorems {
  import opened Crc
  import opened Fields
  import opened Slots
  import opened Zones
  import opened Words

  /** What a caller keeps of a zone across reboots. */
  datatype Kept = Kept(record: Record, eliotId: seq<byte>)

  function Seen(c: Cell): Option<Kept>
    requires Good(c)
  {
    match Get(c)
    case None => None
    case Some(p) => Some(Kept(p.record, p.eliotId))
  }

  /** The row of the table points at exactly the slots with something in them, and an Eliot id belongs
      to a zone. */
  predicate Coherent(c: Cell) {
    Good(c) && (c.entry.zone <==> HasRecord(c)) && (c.entry.eliot <==> HasId(c)) && (HasId(c) ==> HasRecord(c))
  }

  /** What setting a zone is meant to do: without a name it deletes it. */
  function Meant(p: Properties): Option<Kept> {
    if p.record.name != [] then Some(Kept(p.record, p.eliotId)) else None
  }

  predicate Stacks(stack: seq<byte>, idStack: seq<byte>) {
    |stack| == ZONE_SIZE && |idStack| == ELIOT_DEVICE_ID_SIZE
  }

  lemma EraseHolds(size: nat)
    ensures Stored(Erased(size)) == Blank(size) && Text(Erased(size)) == Erased(size)
  {
    NoZeroText(Erased(size));
  }

  /** What stands in the two slots of a zone after a set, whatever stood there before. */
  lemma SlotsAfterSet(c: Cell, p: Properties, stack: seq<byte>, idStack: seq<byte>)
    requires Good(c) && Fits(p) && Stacks(stack, idStack)
    ensures var after := Set(c, p, stack, idStack);
            Good(after) && (HasRecord(after) <==> p.record.name != [])
            && (p.record.name != [] ==> RecordIn(after.zone.image) == p.record)
            && (if HasRecord(c) then (HasId(after) <==> p.eliotId != []) && (p.eliotId != [] ==> Text(after.eliot.image) == p.eliotId)
                else if HasId(c) || p.record.name == [] || p.eliotId == [] then after.eliot == c.eliot
                else HasId(after) && Text(after.eliot.image) == p.eliotId)
  {
    hide Pack, Printed, RecordIn, Text, Checks, Copied, Erased;
    SetIsGood(c, p, stack, idStack);
    EraseHolds(ELIOT_DEVICE_ID_SIZE);
    EraseHolds(ZONE_SIZE);
    PackRoundTrip(Copied(c.zone), p.record);
    PackRoundTrip(stack, p.record);
    PrintRoundTrip(p.eliotId, Copied(c.eliot));
    PrintRoundTrip(p.eliotId, idStack);
  }

  /** Setting a zone shows what was set, or nothing after a delete, exactly unless the zone is added
      with an Eliot id over one that was left in its slot: that id then is lost. */
  lemma SetIsSeenExactly(c: Cell, p: Properties, stack: seq<byte>, idStack: seq<byte>)
    requires Good(c) && Fits(p) && Stacks(stack, idStack)
    ensures var after := Set(c, p, stack, idStack);
            Good(after) && (Seen(after) == Meant(p) <==> !(!HasRecord(c) && p.record.name != [] && p.eliotId != [] && HasId(c)))
    ensures var after := Set(c, p, stack, idStack);
            Good(after) && (Get(after).Some? ==> Get(after).value.v == p.v)
  {
    hide Pack, Printed, RecordIn, Text, Checks, Copied, Erased, Rewritten, RewrittenId, GoodZone, GoodEliot, Fits;
    SlotsAfterSet(c, p, stack, idStack);
    SameOrNamed(c, p);
  }

  /** A zone just set is found under its own address and no other; a deleted one leaves its place free. */
  lemma FoundAfterSet(c: Cell, p: Properties, stack: seq<byte>, idStack: seq<byte>, groupId: word, buildingId: byte, houseId: byte)
    requires Good(c) && Fits(p) && Stacks(stack, idStack)
    ensures var after, r := Set(c, p, stack, idStack), p.record;
            && Good(after)
            && (HasAddress(after, groupId, buildingId, houseId) <==>
                  r.name != [] && r.groupId == groupId && r.buildingId == buildingId && r.houseId == houseId)
            && (IsAvailable(after) <==> r.name == [])
  {
    hide Pack, Printed, RecordIn, Text, Checks, Copied, Erased, Rewritten, RewrittenId, GoodZone, GoodEliot, Fits;
    SlotsAfterSet(c, p, stack, idStack);
    SameOrNamed(c, p);
  }

  /** And so it stays over any run: a coherent zone has the address it shows, and is free if it shows none. */
  lemma FoundAsShown(c: Cell, groupId: word, buildingId: byte, houseId: byte)
    requires Coherent(c)
    ensures HasAddress(c, groupId, buildingId, houseId) <==>
              && Seen(c).Some? && Seen(c).value.record.groupId == groupId
              && Seen(c).value.record.buildingId == buildingId && Seen(c).value.record.houseId == houseId
    ensures IsAvailable(c) <==> Seen(c) == None
  {
    hide RecordIn, Text, Checks, Erased, Sound;
  }

  /** A zone slot in use holds a name, so setting what it holds does not delete it. */
  lemma SameOrNamed(c: Cell, p: Properties)
    requires Good(c)
    ensures HasRecord(c) && p.record == RecordIn(c.zone.image) ==> p.record.name != []
    ensures HasId(c) && p.eliotId == Text(c.eliot.image) ==> p.eliotId != []
    ensures !HasId(c) ==> Text(c.eliot.image) == Erased(ELIOT_DEVICE_ID_SIZE)
  {
    EraseHolds(ELIOT_DEVICE_ID_SIZE);
  }

  /** A coherent zone stays coherent exactly unless it is deleted without its Eliot id. */
  lemma CoherentExactly(c: Cell, p: Properties, stack: seq<byte>, idStack: seq<byte>)
    requires Coherent(c) && Fits(p) && Stacks(stack, idStack)
    ensures Coherent(Set(c, p, stack, idStack)) <==> !(HasRecord(c) && p.record.name == [] && p.eliotId != [])
  {
    hide Pack, Printed, RecordIn, Text, Checks, Copied, Erased, Rewritten, RewrittenId, GoodZone, GoodEliot, Fits;
    SlotsAfterSet(c, p, stack, idStack);
    SameOrNamed(c, p);
  }

  lemma GoodChecks(c: Cell)
    requires Good(c)
    ensures (Checks(c.zone) <==> HasRecord(c)) && (Checks(c.eliot) <==> HasId(c))
  {
    hide Checks, Erased, RecordIn, Text;
    SoundChecks(c.zone, ZONE_SIZE);
    SoundChecks(c.eliot, ELIOT_DEVICE_ID_SIZE);
  }

  /** A reboot rebuilds what the table showed, and leaves the state it starts from in the RAM fields. */
  lemma RebootAgrees(c: Cell)
    requires Coherent(c)
    ensures Coherent(Reboot(c)) && Seen(Reboot(c)) == Seen(c) && Reboot(c).entry.v == DEFAULTS
  {
    hide Checks, Erased, RecordIn, Text, GoodZone, GoodEliot;
    GoodChecks(c);
  }

  /** Over any sound slots a reboot finds the zones that are there, and an Eliot id only behind a zone. */
  lemma RebootFinds(c: Cell)
    requires Good(c)
    ensures Reboot(c).zone == c.zone && Reboot(c).eliot == c.eliot
    ensures Reboot(c).entry == Entry(Volatile(0, false, false, 100, 100), HasRecord(c), HasRecord(c) && HasId(c))
  {
    hide Checks, Erased, RecordIn, Text, GoodZone, GoodEliot;
    GoodChecks(c);
  }

  /** A zone deleted without its Eliot id and added again with another shows no id, and after a reboot
      the old one. */
  lemma LeftIdComesBack(c: Cell, deleted: Properties, added: Properties, stack: seq<byte>, idStack: seq<byte>)
    requires Coherent(c) && HasRecord(c) && Fits(deleted) && Fits(added) && Stacks(stack, idStack)
    requires deleted.record.name == [] && deleted.eliotId != []
    requires added.record.name != [] && added.eliotId != []
    ensures var gone := Set(c, deleted, stack, idStack);
            Good(gone) && Seen(gone) == None
            && var back := Set(gone, added, stack, idStack);
               Good(back) && Seen(back) == Some(Kept(added.record, []))
               && Good(Reboot(back)) && Seen(Reboot(back)) == Some(Kept(added.record, deleted.eliotId))
  {
    hide Pack, Printed, RecordIn, Text, Checks, Copied, Erased, Rewritten, RewrittenId, GoodZone, GoodEliot, Fits;
    SlotsAfterSet(c, deleted, stack, idStack);
    SameOrNamed(c, deleted);
    var gone := Set(c, deleted, stack, idStack);
    SlotsAfterSet(gone, added, stack, idStack);
    GoodChecks(Set(gone, added, stack, idStack));
  }

  // ---------- Runs ----------

  datatype Step =
    | SetZone(zoneIndex: nat, p: Properties, stack: seq<byte>, idStack: seq<byte>)
    | Restart

  predicate Proper(s: Step) {
    s.SetZone? ==> Fits(s.p) && Stacks(s.stack, s.idStack) && (s.p.record.name == [] ==> s.p.eliotId == [])
  }

  predicate AllCoherent(cs: seq<Cell>) {
    |cs| == MAX_NUMBER_OF_ZONES && forall k :: 0 <= k < |cs| ==> Coherent(cs[k])
  }

  /** One step on the whole table, as SetZoneProperties, or a restart, says. */
  function Take(cs: seq<Cell>, s: Step): (r: seq<Cell>)
    requires AllCoherent(cs) && Proper(s)
    ensures |r| == |cs|
  {
    match s
    case SetZone(i, p, stack, idStack) => if i < MAX_NUMBER_OF_ZONES then cs[i := Set(cs[i], p, stack, idStack)] else cs
    case Restart => seq(|cs|, k requires 0 <= k < |cs| => Reboot(cs[k]))
  }

  function Shown(cs: seq<Cell>): (shown: seq<Option<Kept>>)
    requires AllCoherent(cs)
    ensures |shown| == |cs|
  {
    seq(|cs|, k requires 0 <= k < |cs| => Seen(cs[k]))
  }

  /** The same steps on a plain sequence of what is kept. */
  function Model(shown: seq<Option<Kept>>, s: Step): seq<Option<Kept>> {
    match s
    case SetZone(i, p, _, _) => if i < |shown| then shown[i := Meant(p)] else shown
    case Restart => shown
  }

  lemma StepAgrees(cs: seq<Cell>, s: Step)
    requires AllCoherent(cs) && Proper(s)
    ensures AllCoherent(Take(cs, s)) && Shown(Take(cs, s)) == Model(Shown(cs), s)
  {
    hide Coherent, Set, Reboot, Fits;
    match s
    case SetZone(i, p, stack, idStack) =>
      if i < MAX_NUMBER_OF_ZONES {
        Unfold(cs[i]);
        CoherentExactly(cs[i], p, stack, idStack);
        SetIsSeenExactly(cs[i], p, stack, idStack);
        Unfold(Set(cs[i], p, stack, idStack));
        assert Shown(Take(cs, s)) == Model(Shown(cs), s);
      }
    case Restart =>
      RestartAgrees(cs);
  }

  lemma RestartAgrees(cs: seq<Cell>)
    requires AllCoherent(cs)
    ensures AllCoherent(Take(cs, Restart)) && Shown(Take(cs, Restart)) == Shown(cs)
  {
    hide Good, Reboot, HasId, HasRecord;
    var after := Take(cs, Restart);
    forall k | 0 <= k < |cs|
      ensures Coherent(after[k]) && Seen(after[k]) == Seen(cs[k])
    {
      RebootAgrees(cs[k]);
    }
    assert Shown(after) == Shown(cs);
  }

  lemma Unfold(c: Cell)
    requires Coherent(c)
    ensures Good(c) && (HasId(c) ==> HasRecord(c))
  {
  }

  function TakeAll(cs: seq<Cell>, steps: seq<Step>): seq<Cell>
    requires AllCoherent(cs) && forall s :: s in steps ==> Proper(s)
    decreases |steps|
  {
    if steps == [] then cs
    else
      assert steps[0] in steps && forall s :: s in steps[1..] ==> s in steps;
      StepAgrees(cs, steps[0]);
      TakeAll(Take(cs, steps[0]), steps[1..])
  }

  function ModelAll(shown: seq<Option<Kept>>, steps: seq<Step>): seq<Option<Kept>>
    decreases |steps|
  {
    if steps == [] then shown else ModelAll(Model(shown, steps[0]), steps[1..])
  }

  /** Over any run of sets, deletes that clear the Eliot id, and reboots, the table shows what a plain
      sequence of zones would: each zone as last set, deleted ones gone, all others untouched though
      their sectors were erased and written again. */
  lemma {:induction false} StoreAgreesWithMap(cs: seq<Cell>, steps: seq<Step>)
    requires AllCoherent(cs) && forall s :: s in steps ==> Proper(s)
    ensures AllCoherent(TakeAll(cs, steps)) && Shown(TakeAll(cs, steps)) == ModelAll(Shown(cs), steps)
    decreases |steps|
  {
    hide Coherent, Take, Model, Proper;
    if steps != [] {
      assert steps[0] in steps && forall s :: s in steps[1..] ==> s in steps;
      StepAgrees(cs, steps[0]);
      StoreAgreesWithMap(Take(cs, steps[0]), steps[1..]);
    }
  }

  /** A zone over erased flash is coherent and shows nothing. */
  lemma EmptyIsCoherent(v: Volatile)
    ensures var c := Cell(Entry(v, false, false), Blank(ZONE_SIZE), Blank(ELIOT_DEVICE_ID_SIZE));
            Coherent(c) && Seen(c) == None
  {
  }

  /** From erased flash on, whatever RAM held: the table shows exactly the zones the steps left. */
  lemma StoreFromErasedFlash(vs: seq<Volatile>, steps: seq<Step>)
    requires |vs| == MAX_NUMBER_OF_ZONES && forall s :: s in steps ==> Proper(s)
    ensures var cs := seq(|vs|, k requires 0 <= k < |vs| =>
                          Cell(Entry(vs[k], false, false), Blank(ZONE_SIZE), Blank(ELIOT_DEVICE_ID_SIZE)));
            AllCoherent(cs) && AllCoherent(TakeAll(cs, steps))
            && Shown(TakeAll(cs, steps)) == ModelAll(seq(|vs|, _ => None), steps)
  {
    hide Good, HasRecord, HasId, Get, TakeAll, ModelAll, Proper, Blank;
    var cs := seq(|vs|, k requires 0 <= k < |vs| =>
                    Cell(Entry(vs[k], false, false), Blank(ZONE_SIZE), Blank(ELIOT_DEVICE_ID_SIZE)));
    forall k | 0 <= k < |cs|
      ensures Coherent(cs[k]) && Seen(cs[k]) == None
    {
      EmptyIsCoherent(vs[k]);
    }
    assert Shown(cs) == seq(|vs|, _ => None);
    StoreAgreesWithMap(cs, steps);
  }
}
