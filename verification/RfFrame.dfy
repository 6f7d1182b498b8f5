/** Embedded/Sources/RFM100_Tasks.c: the frames the controller builds for its RF module, and what it
    reads out of the frames it hears. */
module RfFrame {
  import opened Crc
  import SentRing
  import opened Words

  const PACKET_SIZE: nat := 64
  const START_BYTE: byte := 0xB2
  const TOPDOG_F1: byte := 1
  const TOPDOG_F2: byte := 6
  const TOPDOG_CADIR: byte := 4
  const TDAM_ANON_MULTICAST: byte := 1
  const TDAM_BROADCAST: byte := 0
  const TDAM_MULTICAST: byte := 3
  const TTL_TWO: byte := 2
  const RAMP_FUNCTION_BYTE: byte := 0x85
  const MAX_TD_POWER: word := 0xFF
  const SLOW_DEACTIVATION_RAMP_VALUE: byte := 3
  const PERCENT_CHANGE_FOR_ADJUST: byte := 5
  const DIMMER_TYPE: byte := 0x41

  const RAMP: word := 0x05
  const CANCEL_RAMP: word := 0x06
  const STATUS: word := 0x13
  const SCENE_REQUESTED: word := 0x2B
  const SCENE_ADJUST: word := 0x2D
  const SCENE_CONTROLLER_MASTER_OFF: word := 0x2F

  /** What a ramp frame takes from the properties of a zone. */
  datatype Zone = Zone(buildingId: byte, houseId: byte, groupId: word, targetState: bool, powerLevel: byte,
                       rampRate: byte, deviceType: byte)

  // ---------- Fields packed into bytes ----------

  function Header(family: byte, mode: byte, timeToLive: byte): byte {
    (family << 5) | (mode << 3) | timeToLive
  }

  function Family(header: byte): byte {
    (header & 0xE0) >> 5
  }

  function AddressMode(header: byte): byte {
    (header & 0x18) >> 3
  }

  function TimeToLive(header: byte): byte {
    header & 0x03
  }

  function Address0(buildingId: byte, houseId: byte): byte {
    ((buildingId << 5) & 0xE0) | ((houseId >> 3) & 0x1F)
  }

  function Address1(houseId: byte, groupId: word): byte {
    ((houseId << 5) & 0xE0) | (((groupId >> 8) & 0x0F) as byte)
  }

  function Address2(groupId: word): byte {
    (groupId & 0xFF) as byte
  }

  function RoomAddress1(houseId: byte, roomId: byte): byte {
    ((houseId << 5) & 0xE0) | 0x10 | ((roomId >> 3) & 0x07)
  }

  function RoomAddress2(roomId: byte): byte {
    (roomId << 5) & 0xE0
  }

  function Building(address0: byte): byte {
    (address0 & 0xE0) >> 5
  }

  function House(address0: byte, address1: byte): byte {
    ((address0 & 0x1F) << 3) | ((address1 & 0xE0) >> 5)
  }

  function Group(address1: byte, address2: byte): word {
    (((address1 & 0x0F) as word) << 8) | (address2 as word)
  }

  predicate IsRoom(address1: byte) {
    address1 & 0x10 != 0
  }

  /** A percentage as a level on the air, cut to a byte; nothing on the way exceeds 16 bits. */
  function Level(percent: byte): byte {
    ((((percent as word) * MAX_TD_POWER + 50) / 100) & 0xFF) as byte
  }

  /** A level on the air as a percentage. */
  function Percent(level: byte): byte {
    ((((level as word) * 100 + (MAX_TD_POWER >> 1)) / MAX_TD_POWER) & 0xFF) as byte
  }

  function Complement(x: byte): byte {
    !x
  }

  function Opcode(b: byte): word {
    (b & 0x3F) as word
  }

  function LongOpcode(opcode: word, b: byte): word {
    (opcode << 8) | (b as word)
  }

  lemma HeaderRoundTrip(family: byte, mode: byte, timeToLive: byte)
    requires family < 8 && mode < 4 && timeToLive < 4
    ensures var h := Header(family, mode, timeToLive);
            Family(h) == family && AddressMode(h) == mode && TimeToLive(h) == timeToLive
  {
  }

  /** The three address bytes give back a building, a house and a group exactly when the building is
      below 8 and the group below 4096, and they never look like a room address. */
  lemma AddressRoundTrip(buildingId: byte, houseId: byte, groupId: word)
    ensures var a0, a1, a2 := Address0(buildingId, houseId), Address1(houseId, groupId), Address2(groupId);
            House(a0, a1) == houseId && !IsRoom(a1)
            && (Building(a0) == buildingId <==> buildingId < 8)
            && (Group(a1, a2) == groupId <==> groupId < 4096)
  {
  }

  lemma RoomIsRoom(houseId: byte, roomId: byte)
    ensures IsRoom(RoomAddress1(houseId, roomId))
  {
  }

  /** A percentage survives the two roundings exactly when it is one. */
  lemma PercentRoundTrip(percent: byte)
    ensures Percent(Level(percent)) == percent <==> percent <= 100
  {
  }

  /** Neither rounding is off by more than half a step: a level on the air is a 255th of full power. */
  lemma NearestLevels(percent: byte, level: byte)
    ensures percent <= 100 ==>
              var l := Level(percent) as word * 100;
              l <= percent as word * 255 + 50 && percent as word * 255 <= l + 50
    ensures var p := Percent(level) as word * 255;
            p <= level as word * 100 + 127 && level as word * 100 <= p + 127
  {
  }

  // ---------- Building frames ----------

  function SentLevel(z: Zone): byte {
    if z.targetState then Level(z.powerLevel) else 0
  }

  /** A ramp command from its header byte on, without the check bytes. */
  function RampBody(z: Zone, timeToLive: byte): (body: seq<byte>)
    ensures |body| == 8
  {
    [Header(TOPDOG_F2, TDAM_ANON_MULTICAST, timeToLive),
     Address0(z.buildingId, z.houseId), Address1(z.houseId, z.groupId), Address2(z.groupId),
     RAMP_FUNCTION_BYTE, SentLevel(z), z.rampRate, z.deviceType]
  }

  function RampAllBody(buildingId: byte, roomId: byte, houseId: byte, powerLevel: byte): (body: seq<byte>)
    ensures |body| == 8
  {
    [Header(TOPDOG_F2, TDAM_ANON_MULTICAST, TTL_TWO),
     Address0(buildingId, houseId), RoomAddress1(houseId, roomId), RoomAddress2(roomId),
     RAMP_FUNCTION_BYTE, Level(powerLevel), 50, DIMMER_TYPE]
  }

  /** A body followed by its two check bytes. */
  function Checked(body: seq<byte>): (s: seq<byte>)
    ensures |s| == |body| + 2
  {
    body + [Crc8(0, body), Complement(Crc8(0, body))]
  }

  /** What the controller writes to its RF module for a body of eight bytes. */
  function Frame(body: seq<byte>): (s: seq<byte>)
    requires |body| == 8
    ensures |s| == 13
  {
    [0x86, 0xB4, 10] + Checked(body)
  }

  /** A frame as a receiver gets it: the module puts the start byte in front and the signal strength
      behind the length. */
  function Air(body: seq<byte>, length: byte, rssi: byte): (s: seq<byte>)
    requires Number(length) == |body| + 2
    ensures |s| == |body| + 5
  {
    [START_BYTE, length, rssi] + Checked(body)
  }

  function OnAir(body: seq<byte>, rssi: byte): (s: seq<byte>)
    requires |body| == 8
    ensures |s| == 13
  {
    Air(body, 10, rssi)
  }

  function SentZone(z: Zone): SentRing.Zone {
    SentRing.Zone(WordNumber(z.groupId), Number(z.buildingId), Number(z.houseId), Number(z.powerLevel))
  }

  /** The ring of sent messages after a ramp command for a zone. */
  function AfterAdd(q: seq<SentRing.Message>, zone: Zone, now: Uint32, stamp: Uint32):
    seq<SentRing.Message>
  {
    var kept := SentRing.Purge(q, now);
    var z := SentZone(zone);
    if |kept| < SentRing.MAX_SENT - 1
    then kept + [SentRing.Message(stamp, z.groupId, z.buildingId, z.houseId, z.powerLevel)] else []
  }

  /** The headers and the address of a zone, byte by byte. */
  method WriteAddress(payload: array<byte>, z: Zone)
    requires payload.Length >= 13
    modifies payload
    ensures payload[..3] == [0x86, 0xB4, 0] && payload[3..7] == RampBody(z, TTL_TWO)[..4]
    ensures payload[7..] == old(payload[7..])
  {
    hide Header, Address0, Address1, Address2, SentLevel;
    payload[0], payload[1], payload[2] := 0x86, 0xB4, 0;
    payload[3] := Header(TOPDOG_F2, TDAM_ANON_MULTICAST, TTL_TWO);
    payload[4] := Address0(z.buildingId, z.houseId);
    payload[5] := Address1(z.houseId, z.groupId);
    payload[6] := Address2(z.groupId);
  }

  method WriteRamp(payload: array<byte>, z: Zone)
    requires payload.Length >= 13
    modifies payload
    ensures payload[..3] == [0x86, 0xB4, 0] && payload[3..11] == RampBody(z, TTL_TWO)
    ensures payload[11..] == old(payload[11..])
  {
    hide Header, Address0, Address1, Address2, Level;
    WriteAddress(payload, z);
    ghost var before := payload[..7];
    payload[7] := RAMP_FUNCTION_BYTE;
    if !z.targetState {
      payload[8] := 0;
    } else {
      payload[8] := Level(z.powerLevel);
    }
    payload[9], payload[10] := z.rampRate, z.deviceType;
    assert payload[..7] == before && payload[3..11] == before[3..] + payload[7..11];
  }

  method CheckAndMeasure(payload: array<byte>, ghost body: seq<byte>) returns (count: nat)
    requires payload.Length >= 13 && |body| == 8 && payload[..3] == [0x86, 0xB4, 0] && payload[3..11] == body
    modifies payload
    ensures count == 13 && payload[..] == Frame(body) + old(payload[13..])
  {
    hide Crc8, Complement;
    count := 11;
    var crc := UpdateCRC8(0, payload, 3, count - 3);
    assert payload[3..3 + (count - 3)] == body;
    payload[count] := crc;
    payload[count + 1] := Complement(crc);
    count := count + 2;
    payload[2] := 10;
    assert payload[..] == payload[..3] + payload[3..11] + payload[11..13] + payload[13..];
  }

  method BuildRampFrame(payload: array<byte>, z: Zone) returns (count: nat)
    requires payload.Length >= 13
    modifies payload
    ensures count == 13 && payload[..] == Frame(RampBody(z, TTL_TWO)) + old(payload[13..])
  {
    hide RampBody, Frame;
    WriteRamp(payload, z);
    assert payload[13..] == payload[11..][2..];
    count := CheckAndMeasure(payload, RampBody(z, TTL_TWO));
  }

  /** BuildRamp */
  method BuildRamp(payload: array<byte>, zone: Option<Zone>, ring: SentRing.Ring,
                   now: Uint32, stamp: Uint32) returns (count: nat)
    requires payload.Length >= 13 && ring.Valid() && payload as object != ring.messages as object
    modifies payload, ring`readIndex, ring`writeIndex, ring.messages
    ensures ring.Valid()
    ensures zone.None? ==> count == 0 && payload[..] == old(payload[..]) && ring.Contents() == old(ring.Contents())
    ensures zone.Some? ==> count == 13 && payload[..] == Frame(RampBody(zone.value, TTL_TWO)) + old(payload[13..])
    ensures zone.Some? ==> ring.Contents() == AfterAdd(old(ring.Contents()), zone.value, now, stamp)
  {
    hide RampBody, Frame, SentZone, SentRing.Purge, SentRing.View, SentRing.Span;
    count := 0;
    if zone.Some? {
      count := BuildRampFrame(payload, zone.value);
      ring.Add(Some(SentZone(zone.value)), now, stamp);
    }
  }

  /** BuildRampAll, as what it writes to the RF module. */
  method BuildRampAll(buildingId: byte, roomId: byte, houseId: byte, powerLevel: byte) returns (sent: seq<byte>)
    ensures sent == Frame(RampAllBody(buildingId, roomId, houseId, powerLevel))
  {
    hide Address0, RoomAddress1, RoomAddress2, Header, Level, Frame, Checked;
    var payload := new byte[32];
    payload[0], payload[1], payload[2] := 0x86, 0xB4, 0;
    payload[3] := Header(TOPDOG_F2, TDAM_ANON_MULTICAST, TTL_TWO);
    payload[4] := Address0(buildingId, houseId);
    payload[5] := RoomAddress1(houseId, roomId);
    payload[6] := RoomAddress2(roomId);
    payload[7], payload[8], payload[9], payload[10] := RAMP_FUNCTION_BYTE, Level(powerLevel), 50, DIMMER_TYPE;
    ghost var body := RampAllBody(buildingId, roomId, houseId, powerLevel);
    assert payload[3..11] == body;
    var count := CheckAndMeasure(payload, body);
    sent := payload[..count];
  }
}
