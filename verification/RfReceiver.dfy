/** Embedded/Sources/RFM100_Tasks.c: the machine that gathers bytes from the RF module into a packet,
    and the handling of a gathered packet. */
module RfReceiver {
  import opened Crc
  import opened RfFrame
  import SentRing
  import opened Words

  const RFM100_ACK_BYTE: byte := 0xC5
  const RFM100_NAK_BYTE: byte := 0xC6

  datatype State = Idle | Length | Rssi | Payload

  /** A byte from the module, or the end of the short wait for one. */
  datatype Event = Byte(b: byte) | Timeout

  datatype Outcome = Quiet | Acknowledged(b: byte) | Packet

  /** The receiver's variables as one value. */
  datatype Receiving = Receiving(state: State, index: nat, recvdLen: byte, packet: seq<byte>)

  /** In every state a byte can be stored without passing the end of the buffer: only a receiver that
      waits for a new packet, and so starts from index 0 again, has its index at the end. */
  predicate Ok(r: Receiving) {
    |r.packet| == PACKET_SIZE && r.index <= PACKET_SIZE && (r.state != Idle ==> r.index < PACKET_SIZE)
  }

  /** The receiver as its loop keeps it: once the length byte was accepted, it stands in the packet. */
  predicate Gathering(r: Receiving) {
    Ok(r)
    && (r.state == Length ==> r.index == 1)
    && (r.state == Rssi ==> r.index == 2)
    && (r.state == Payload ==> r.index >= 3)
    && (r.state == Rssi || r.state == Payload ==> r.recvdLen <= 64 && r.recvdLen == r.packet[1] + 1)
  }

  /** BuildReceivedPacket, and whether it has a packet. */
  function Build(r: Receiving, inByte: byte): (Receiving, bool)
    requires |r.packet| == PACKET_SIZE && r.index < PACKET_SIZE
  {
    var stored := r.(packet := r.packet[r.index := inByte], index := r.index + 1);
    if stored.index >= PACKET_SIZE then (stored.(state := Idle), false)
    else
      match r.state
      case Idle => (if inByte == START_BYTE then stored.(state := Length) else stored, false)
      case Length =>
        var n := inByte + 1;
        (stored.(recvdLen := n, state := if n > 64 then Idle else Rssi), false)
      case Rssi => (stored.(state := Payload), false)
      case Payload =>
        if stored.index > r.recvdLen as nat + 1 then (stored.(state := Idle), true) else (stored, false)
  }

  /** One turn of RFM100Receive_Task. */
  function Step(r: Receiving, e: Event): (Receiving, Outcome)
    requires Ok(r)
  {
    match e
    case Timeout => (r.(state := Idle), Quiet)
    case Byte(b) =>
      var ready := if r.state == Idle then r.(index := 0) else r;
      if r.state == Idle && (b == RFM100_ACK_BYTE || b == RFM100_NAK_BYTE) then (ready, Acknowledged(b))
      else
        var (built, got) := Build(ready, b);
        (built, if got then Packet else Quiet)
  }

  // ---------- Handling a packet ----------

  datatype Command =
    | Heard(rssi: byte, header: byte, data: seq<byte>)
    | Ramp(buildingId: byte, houseId: byte, groupId: word, percent: byte, deviceType: byte)
    | Status(buildingId: byte, houseId: byte, groupId: word, target: byte, deviceType: byte)
    | MasterOff(buildingId: byte, houseId: byte, groupId: word, deviceType: byte, slow: byte)
    | SceneRequest(buildingId: byte, houseId: byte, groupId: word, bank: byte, on: bool, deviceType: byte, slow: byte)
    | SceneAdjust(buildingId: byte, houseId: byte, groupId: word, bank: byte, change: byte, up: bool)

  predicate TwoCheckBytes(header: byte) {
    Family(header) == TOPDOG_F2 || Family(header) == TOPDOG_CADIR
  }

  /** The checked part and the check bytes of a packet lie in the buffer. */
  predicate Readable(p: seq<byte>) {
    && |p| == PACKET_SIZE
    && (Family(p[3]) == TOPDOG_F1 ==> 1 <= p[1] as nat <= 61)
    && (TwoCheckBytes(p[3]) ==> 2 <= p[1] as nat <= 61)
  }

  /** The header and the length byte agree so far that the check stays within the buffer. */
  predicate Legal(p: seq<byte>)
    requires |p| == PACKET_SIZE
  {
    && !(Family(p[3]) == TOPDOG_F1 && (p[1] == 0 || p[1] == 255))
    && !(TwoCheckBytes(p[3]) && (p[1] == 0 || p[1] == 1 || p[1] == 255))
  }

  /** The packet is of a known family and its check bytes are right. */
  predicate Genuine(p: seq<byte>)
    requires Readable(p)
  {
    var n := p[1] as nat;
    if Family(p[3]) == TOPDOG_F1 then Crc8(0, p[3..2 + n]) == p[n + 2]
    else if TwoCheckBytes(p[3]) then
      var crc := Crc8(0, p[3..1 + n]);
      p[n + 1] == crc && p[n + 2] == Complement(crc)
    else false
  }

  predicate Addressed(mode: byte) {
    mode == TDAM_BROADCAST || mode == TDAM_ANON_MULTICAST || mode == TDAM_MULTICAST
  }

  /** It carries a group address. */
  predicate ForGroup(p: seq<byte>)
    requires |p| == PACKET_SIZE
  {
    Addressed(AddressMode(p[3])) && !IsRoom(p[5])
  }

  /** The operation code of a packet, of one byte or of two, and where its parameters begin. */
  function Operation(p: seq<byte>): (r: (word, nat))
    requires |p| == PACKET_SIZE
    ensures r.1 <= 9
  {
    var opcode := Opcode(p[7]);
    if opcode >= 0x30 then (LongOpcode(opcode, p[8]), 9) else (opcode, 8)
  }

  /** A repeat of one of the sent messages: only a packet at the end of its way counts as one. */
  ghost predicate Repeats(q: seq<SentRing.Message>, p: seq<byte>, percent: byte)
    requires |p| == PACKET_SIZE
  {
    Number(TimeToLive(p[3])) < 2
    && exists m :: m in q && SentRing.IsMatch(m, Number(Building(p[4])), Number(House(p[4], p[5])),
                                              WordNumber(Group(p[5], p[6])), Number(percent))
  }

  predicate Bit(b: byte, mask: byte) {
    b & mask != 0
  }

  function Bank(b: byte): byte {
    b & 0x3F
  }

  predicate Fresh(sequence: byte, last: byte) {
    sequence != last || sequence == 0
  }

  function Slowness(deactivate: bool): byte {
    if deactivate then SLOW_DEACTIVATION_RAMP_VALUE else 0
  }

  /** What a packet with a scene controller's operation asks for: the calls made for it, and the
      sequence number to remember. */
  function SceneAsked(p: seq<byte>, last: byte, opcode: word, i: nat): (seq<Command>, byte)
    requires |p| == PACKET_SIZE && i <= 9
  {
    var b, h, g := Building(p[4]), House(p[4], p[5]), Group(p[5], p[6]);
    if opcode == SCENE_CONTROLLER_MASTER_OFF then
      (if Fresh(p[i + 1], last) then [MasterOff(b, h, g, p[i + 2], Slowness(p[i + 2] != 0))] else [], last)
    else if opcode == SCENE_REQUESTED && Fresh(p[i + 3], last) then
      ([SceneRequest(b, h, g, Bank(p[i + 1]), Bit(p[i + 1], 0x40), p[i + 2], Slowness(Bit(p[i + 1], 0x80)))], p[i + 3])
    else if opcode == SCENE_ADJUST && Fresh(p[i + 3], last) then
      ([SceneAdjust(b, h, g, p[i], PERCENT_CHANGE_FOR_ADJUST, Bit(p[i + 1], 0x80))], p[i + 3])
    else ([], last)
  }

  /** What a genuine packet for a group asks for, by its operation. */
  ghost function Asked(p: seq<byte>, last: byte, q: seq<SentRing.Message>): (seq<Command>, byte)
    requires |p| == PACKET_SIZE
  {
    var b, h, g := Building(p[4]), House(p[4], p[5]), Group(p[5], p[6]);
    var (opcode, i) := Operation(p);
    if opcode == RAMP || opcode == CANCEL_RAMP then
      (if Repeats(q, p, Percent(p[i])) then [] else [Ramp(b, h, g, Percent(p[i]), p[i + 2])], last)
    else if opcode == STATUS then ([Status(b, h, g, p[i + 1], Percent(p[i]))], last)
    else SceneAsked(p, last, opcode, i)
  }

  /** The calls a packet leads to, in test mode or out of it. */
  ghost function Handled(p: seq<byte>, testMode: bool, last: byte, q: seq<SentRing.Message>): (seq<Command>, byte)
    requires Readable(p)
  {
    if !Genuine(p) then ([], last)
    else if testMode then ([Heard(p[2], p[0], p[3..3 + p[1] as nat])], last)
    else if ForGroup(p) then Asked(p, last, q)
    else ([], last)
  }

  class Receiver {
    const packet: array<byte>
    const ring: SentRing.Ring
    var index: nat
    var state: State
    var recvdLen: byte
    var testMode: bool
    var oldSequence: byte

    ghost predicate Valid()
      reads this, packet, ring
    {
      packet.Length == PACKET_SIZE && ring.Valid() && Ok(Now())
    }

    ghost function Now(): Receiving
      reads this, packet
    {
      Receiving(state, index, recvdLen, packet[..])
    }

    constructor (packet: array<byte>, ring: SentRing.Ring)
      requires packet.Length == PACKET_SIZE && ring.Valid()
      ensures Valid() && this.packet == packet && this.ring == ring && Now() == Receiving(Idle, 0, 0, packet[..])
    {
      this.packet, this.ring := packet, ring;
      index, state, recvdLen := 0, Idle, 0;
      testMode, oldSequence := false, 0;
    }

    /** BuildReceivedPacket */
    method BuildReceivedPacket(inByte: byte) returns (got: bool)
      requires packet.Length == PACKET_SIZE && index < PACKET_SIZE
      modifies this`index, this`state, this`recvdLen, packet
      ensures (Now(), got) == Build(old(Now()), inByte)
    {
      got := false;
      packet[index] := inByte;
      index := index + 1;
      if index >= PACKET_SIZE {
        state := Idle;
      } else {
        match state
        case Idle =>
          if inByte == START_BYTE {
            state := Length;
          }
        case Length =>
          recvdLen := inByte + 1;
          if recvdLen > 64 {
            state := Idle;
          } else {
            state := Rssi;
          }
        case Rssi => state := Payload;
        case Payload =>
          if index > recvdLen as nat + 1 {
            state := Idle;
            got := true;
          }
      }
    }

    /** One turn of RFM100Receive_Task, up to the handling of the packet it may have completed. */
    method Take(e: Event) returns (outcome: Outcome)
      requires packet.Length == PACKET_SIZE && Ok(Now())
      modifies this`index, this`state, this`recvdLen, packet
      ensures Ok(Now()) && (Now(), outcome) == Step(old(Now()), e)
    {
      hide Build;
      outcome := Quiet;
      match e
      case Timeout => state := Idle;
      case Byte(b) =>
        if state == Idle {
          index := 0;
        }
        if state == Idle && (b == RFM100_ACK_BYTE || b == RFM100_NAK_BYTE) {
          outcome := Acknowledged(b);
        } else {
          BuildKeepsOk(Now(), b);
          var got := BuildReceivedPacket(b);
          if got {
            outcome := Packet;
          }
        }
    }

    /** The check bytes of the packet in the buffer. */
    method Check() returns (genuine: bool)
      requires Readable(packet[..])
      ensures genuine == Genuine(packet[..])
      ensures genuine ==> 1 <= packet[1] as nat <= 61
    {
      hide Crc8, Family, Complement;
      genuine := false;
      var packetLength := packet[1] as nat;
      var topdogFamily := Family(packet[3]);
      if topdogFamily == TOPDOG_F1 {
        var crc := UpdateCRC8(0, packet, 3, packetLength - 1);
        assert packet[3..3 + (packetLength - 1)] == packet[..][3..2 + packetLength];
        genuine := crc == packet[packetLength + 2];
      } else if topdogFamily == TOPDOG_F2 || topdogFamily == TOPDOG_CADIR {
        var crc := UpdateCRC8(0, packet, 3, packetLength - 2);
        assert packet[3..3 + (packetLength - 2)] == packet[..][3..1 + packetLength];
        genuine := packet[packetLength + 1] == crc && packet[packetLength + 2] == Complement(crc);
      }
    }

    /** The cases of the switch for the commands of scene controllers. */
    method DispatchScene(b: byte, h: byte, g: word, cmd: word, i: nat) returns (calls: seq<Command>)
      requires packet.Length == PACKET_SIZE && i <= 9
      requires b == Building(packet[4]) && h == House(packet[4], packet[5]) && g == Group(packet[5], packet[6])
      modifies this`oldSequence
      ensures (calls, oldSequence) == SceneAsked(packet[..], old(oldSequence), cmd, i)
    {
      hide Building, House, Group, Bit, Bank;
      calls := [];
      if cmd == SCENE_CONTROLLER_MASTER_OFF {
        var newSequence := packet[i + 1];
        if newSequence != oldSequence || newSequence == 0 {
          var slowDeactivateMode := if packet[i + 2] != 0 then SLOW_DEACTIVATION_RAMP_VALUE else 0;
          calls := [MasterOff(b, h, g, packet[i + 2], slowDeactivateMode)];
        }
      } else if cmd == SCENE_REQUESTED {
        var newSequence, flags := packet[i + 3], packet[i + 1];
        var slowDeactivateMode := if Bit(flags, 0x80) then SLOW_DEACTIVATION_RAMP_VALUE else 0;
        if newSequence != oldSequence || newSequence == 0 {
          oldSequence := newSequence;
          calls := [SceneRequest(b, h, g, Bank(flags), Bit(flags, 0x40), packet[i + 2], slowDeactivateMode)];
        }
      } else if cmd == SCENE_ADJUST {
        var newSequence := packet[i + 3];
        if newSequence != oldSequence || newSequence == 0 {
          oldSequence := newSequence;
          calls := [SceneAdjust(b, h, g, packet[i], PERCENT_CHANGE_FOR_ADJUST, Bit(packet[i + 1], 0x80))];
        }
      }
    }

    /** The switch over the operation of a genuine packet for a group. */
    method Dispatch() returns (calls: seq<Command>)
      requires packet.Length == PACKET_SIZE && ring.Valid()
      modifies this`oldSequence, ring`readIndex, ring`writeIndex
      ensures ring.Valid() && ring.Contents() == old(ring.Contents())
      ensures (calls, oldSequence) == Asked(packet[..], old(oldSequence), old(ring.Contents()))
    {
      hide Building, House, Group, Percent, TimeToLive, SentRing.View, SentRing.Span, SentRing.IsMatch, Opcode, LongOpcode, SceneAsked, Repeats;
      var b, h, g := Building(packet[4]), House(packet[4], packet[5]), Group(packet[5], packet[6]);
      var i := 8;
      var cmd := Opcode(packet[7]);
      if cmd >= 0x30 {
        cmd, i := LongOpcode(cmd, packet[8]), 9;
      }
      assert Operation(packet[..]) == (cmd, i);
      if cmd == RAMP || cmd == CANCEL_RAMP {
        calls := DispatchRamp(b, h, g, i);
      } else if cmd == STATUS {
        calls := [Status(b, h, g, packet[i + 1], Percent(packet[i]))];
      } else {
        calls := DispatchScene(b, h, g, cmd, i);
      }
    }

    method DispatchRamp(b: byte, h: byte, g: word, i: nat) returns (calls: seq<Command>)
      requires packet.Length == PACKET_SIZE && ring.Valid() && i <= 9
      requires b == Building(packet[4]) && h == House(packet[4], packet[5]) && g == Group(packet[5], packet[6])
      modifies ring`readIndex, ring`writeIndex
      ensures ring.Valid() && ring.Contents() == old(ring.Contents())
      ensures var p := packet[..];
              calls == if Repeats(ring.Contents(), p, Percent(p[i])) then [] else [Ramp(b, h, g, Percent(p[i]), p[i + 2])]
    {
      hide Building, House, Group, Percent, TimeToLive, Number, WordNumber, SentRing.View, SentRing.Span;
      var targetValue := Percent(packet[i]);
      var repeated := ring.IsRepeat(Number(b), Number(h), WordNumber(g), Number(targetValue), Number(TimeToLive(packet[3])));
      calls := if !repeated then [Ramp(b, h, g, targetValue, packet[i + 2])] else [];
    }

    /** ProcessReceivedPacket, and the calls it makes. */
    method ProcessReceivedPacket() returns (calls: seq<Command>)
      requires Readable(packet[..]) && ring.Valid()
      modifies this`oldSequence, ring`readIndex, ring`writeIndex
      ensures ring.Valid() && ring.Contents() == old(ring.Contents())
      ensures (calls, oldSequence) == Handled(packet[..], testMode, old(oldSequence), old(ring.Contents()))
    {
      hide Genuine, Asked, AddressMode, IsRoom, SentRing.View, SentRing.Span;
      calls := [];
      var validPacketFlag := Check();
      if validPacketFlag {
        if testMode {
          return [Heard(packet[2], packet[0], packet[3..3 + packet[1] as nat])];
        }
        var topdogAddressMode := AddressMode(packet[3]);
        if topdogAddressMode == TDAM_BROADCAST || topdogAddressMode == TDAM_ANON_MULTICAST || topdogAddressMode == TDAM_MULTICAST {
          if !IsRoom(packet[5]) {
            calls := Dispatch();
          }
        }
      }
    }

    /** One whole turn of RFM100Receive_Task: the byte, and the handling of the packet it completes. */
    method Turn(e: Event) returns (calls: seq<Command>)
      requires Valid() && Gathering(Now())
      requires Step(Now(), e).1 == Packet ==> Legal(Step(Now(), e).0.packet)
      modifies this, packet, ring
      ensures Valid() && Gathering(Now()) && ring.Contents() == old(ring.Contents()) && Now() == Step(old(Now()), e).0
      ensures testMode == old(testMode)
      ensures (calls, oldSequence) ==
              if Step(old(Now()), e).1 == Packet then Handled(packet[..], testMode, old(oldSequence), old(ring.Contents()))
              else ([], old(oldSequence))
    {
      hide Step, Handled, Gathering, Legal, Readable, SentRing.View, SentRing.Span;
      calls := [];
      StepGathers(Now(), e);
      var outcome := Take(e);
      if outcome == Packet {
        ReportedIsReadable(packet[..]);
        calls := ProcessReceivedPacket();
      }
    }
  }

  lemma BuildKeepsOk(r: Receiving, b: byte)
    requires |r.packet| == PACKET_SIZE && r.index < PACKET_SIZE
    ensures Ok(Build(r, b).0)
  {
  }

  /** The length bytes a reported packet can have. */
  predicate Reportable(length: byte) {
    length <= 60 || length == 255
  }

  lemma StepGathers(r: Receiving, e: Event)
    requires Gathering(r)
    ensures var (after, outcome) := Step(r, e);
            Gathering(after) && (outcome == Packet ==> Reportable(after.packet[1]))
  {
    hide Build, Reportable;
    if e.Byte? {
      BuildGathers(if r.state == Idle then r.(index := 0) else r, e.b);
    }
  }

  lemma BuildGathers(r: Receiving, b: byte)
    requires Gathering(r) && (r.state == Idle ==> r.index == 0)
    ensures var (after, got) := Build(r, b);
            Gathering(after) && (got ==> Reportable(after.packet[1]))
  {
    hide Reportable;
    if r.state == Payload {
      LastLength(r.recvdLen, r.packet[1], r.index);
    }
  }

  lemma LastLength(recvdLen: byte, length: byte, index: nat)
    requires recvdLen <= 64 && recvdLen == length + 1
    ensures index + 1 < PACKET_SIZE && index + 1 > recvdLen as nat + 1 ==> Reportable(length)
  {
    assert recvdLen as nat < 62 ==> recvdLen < 62;
  }

  /** For such a packet the check stays within the buffer exactly if it is legal. */
  lemma ReportedIsReadable(p: seq<byte>)
    requires |p| == PACKET_SIZE && Reportable(p[1])
    ensures Readable(p) <==> Legal(p)
  {
    hide Family;
    SmallNumbers(p[1]);
  }

  lemma SmallNumbers(length: byte)
    requires Reportable(length)
    ensures 1 <= length as nat <= 61 <==> !(length == 0 || length == 255)
    ensures 2 <= length as nat <= 61 <==> !(length == 0 || length == 1 || length == 255)
  {
  }
}
