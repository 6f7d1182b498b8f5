/** What the receiver reports over whole runs, and that a frame comes back out as it went in. */
module RfTheorems {
  import opened Crc
  import opened RfFrame
  import opened RfReceiver
  import SentRing
  import opened Words

  // ---------- Runs ----------

  /** The receiver after a run of events, and the packets it reported, in order. */
  function Run(r: Receiving, es: seq<Event>): (result: (Receiving, seq<seq<byte>>))
    requires Ok(r)
    ensures Ok(result.0)
  {
    if es == [] then (r, [])
    else
      var (before, packets) := Run(r, es[..|es| - 1]);
      var (after, outcome) := Step(before, es[|es| - 1]);
      StepKeepsOk(before, es[|es| - 1]);
      (after, if outcome == Packet then packets + [after.packet] else packets)
  }

  lemma StepKeepsOk(r: Receiving, e: Event)
    requires Ok(r)
    ensures Ok(Step(r, e).0)
  {
  }

  function Start(packet: seq<byte>): (r: Receiving)
    requires |packet| == PACKET_SIZE
    ensures Ok(r)
  {
    Receiving(Idle, 0, 0, packet)
  }

  function Bytes(s: seq<byte>): (es: seq<Event>)
    ensures |es| == |s|
  {
    seq(|s|, i requires 0 <= i < |s| => Byte(s[i]))
  }

  lemma {:induction false} RunConcat(r: Receiving, a: seq<Event>, b: seq<Event>)
    requires Ok(r)
    ensures var (middle, first) := Run(r, a);
            var (end, second) := Run(middle, b);
            Run(r, a + b) == (end, first + second)
  {
    hide Step, Ok;
    if b == [] {
      assert a + b == a;
      var (_, first) := Run(r, a);
      assert first + [] == first;
    } else {
      var n := |b| - 1;
      assert (a + b)[..|a + b| - 1] == a + b[..n];
      RunConcat(r, a, b[..n]);
      var (middle, first) := Run(r, a);
      var (_, second) := Run(middle, b[..n]);
      forall x: seq<byte>
        ensures (first + second) + [x] == first + (second + [x])
      {
      }
    }
  }

  /** While it waits, the receiver hands on the module's two answers at once and lets every other byte
      but the start of a frame go by. In the middle of a frame no byte is an answer. */
  lemma AnswersWhileIdle(r: Receiving, b: byte)
    requires Ok(r)
    ensures var (after, outcome) := Step(r, Byte(b));
            && (outcome == Acknowledged(b) <==> r.state == Idle && (b == 0xC5 || b == 0xC6))
            && (r.state == Idle ==> after.state == if b == 0xB2 then Length else Idle)
            && (r.state == Idle ==> outcome == if b == 0xC5 || b == 0xC6 then Acknowledged(b) else Quiet)
  {
  }

  /** The end of the buffer is reached only by a receiver back to waiting, and every byte that is
      stored, in any run, is stored below it. */
  lemma IndexStaysInside(packet: seq<byte>, es: seq<Event>, b: byte)
    requires |packet| == PACKET_SIZE
    ensures var r := Run(Start(packet), es).0;
            r.index <= PACKET_SIZE && (r.index == PACKET_SIZE ==> r.state == Idle)
    ensures var r := Run(Start(packet), es).0;
            var after := Step(r, Byte(b)).0;
            |after.packet| == PACKET_SIZE
            && forall k :: 0 <= k < PACKET_SIZE && k != (if r.state == Idle then 0 else r.index) ==> after.packet[k] == r.packet[k]
  {
    hide Run;
  }

  /** The index comes to stand at the end of the buffer exactly when a byte fills it in the middle of a
      frame; there it stays until the next byte. */
  lemma IndexAtEndExactly(r: Receiving, e: Event)
    requires Ok(r)
    ensures Step(r, e).0.index == PACKET_SIZE <==>
            (e.Byte? && r.state != Idle && r.index == PACKET_SIZE - 1) || (e == Timeout && r.index == PACKET_SIZE)
  {
    hide Family;
  }

  // ---------- Which packets can be checked ----------

  /** Over every run the packets reported have a length byte of 0 to 60 or 255, and the check of one
      stays within the buffer if and only if it is not a family with one check byte and length 0 or 255,
      or one with two and length 0, 1 or 255. */
  lemma {:induction false} ReportedExactly(packet: seq<byte>, es: seq<Event>)
    requires |packet| == PACKET_SIZE
    ensures Gathering(Run(Start(packet), es).0)
    ensures forall p :: p in Run(Start(packet), es).1 ==>
              |p| == PACKET_SIZE && Reportable(p[1]) && (Readable(p) <==> Legal(p))
    decreases |es|
  {
    hide Step, Gathering, Readable, Legal, Reportable, Ok;
    if es == [] {
      StartGathers(packet);
    } else {
      var k := |es| - 1;
      ReportedExactly(packet, es[..k]);
      var before := Run(Start(packet), es[..k]).0;
      StepGathers(before, es[k]);
      var (after, outcome) := Step(before, es[k]);
      GatheringHasBuffer(after);
      if outcome == Packet {
        ReportedIsReadable(after.packet);
      }
    }
  }

  lemma StartGathers(packet: seq<byte>)
    requires |packet| == PACKET_SIZE
    ensures Gathering(Start(packet))
  {
  }

  lemma GatheringHasBuffer(r: Receiving)
    requires Gathering(r)
    ensures |r.packet| == PACKET_SIZE
  {
  }

  /** Four bytes are enough for a packet whose check would leave the buffer: a length byte of 255 counts
      as no length at all. */
  lemma IllegalIsReported(packet: seq<byte>, rssi: byte)
    requires |packet| == PACKET_SIZE
    ensures var packets := Run(Start(packet), Bytes([START_BYTE, 255, rssi, 0x20])).1;
            |packets| == 1 && |packets[0]| == PACKET_SIZE && !Legal(packets[0]) && !Readable(packets[0])
  {
    hide Run, Reportable, Legal, Readable;
    var frame := [START_BYTE, 255, rssi, 0x20];
    EmptyLength();
    FrameReported(Start(packet), frame);
    var p := Run(Start(packet), Bytes(frame)).0.packet;
    assert p[1] == p[..4][1] == 255 && p[3] == p[..4][3] == 0x20;
    OneCheckByte(p);
  }

  lemma EmptyLength()
    ensures (255 as byte) + 1 == 0 && FrameSize(255) == 4
  {
  }

  lemma OneCheckByte(p: seq<byte>)
    requires |p| == PACKET_SIZE && p[1] == 255 && p[3] == 0x20
    ensures !Legal(p) && !Readable(p)
  {
    assert Family(0x20) == TOPDOG_F1 && (255 as byte) as nat == 255;
  }

  // ---------- Framing ----------

  /** How many bytes a frame with a given length byte has before the receiver reports it. */
  function FrameSize(length: byte): nat {
    var n := (length + 1) as nat + 2;
    if n < 4 then 4 else n
  }

  /** Frames with 1 to 60 bytes behind the length byte fit the buffer and end with the last of them; 61 to
      63 fill it first. */
  lemma FramesThatFit(length: byte)
    ensures 1 <= Number(length) <= 60 ==> length + 1 <= 64 && FrameSize(length) == Number(length) + 3 < PACKET_SIZE
    ensures 61 <= Number(length) <= 63 ==> length + 1 <= 64 && FrameSize(length) >= PACKET_SIZE
    ensures 64 <= Number(length) <= 254 ==> length + 1 > 64
  {
  }

  /** In the middle of a frame the receiver has stored what came and reported nothing. */
  lemma {:induction false} MidFrame(r: Receiving, frame: seq<byte>, k: nat)
    requires Ok(r) && r.state == Idle
    requires 1 <= k <= |frame| && frame[0] == START_BYTE && k < PACKET_SIZE
    requires k > 1 ==> frame[1] + 1 <= 64 && k < FrameSize(frame[1])
    ensures var (after, packets) := Run(r, Bytes(frame[..k]));
            packets == [] && after.index == k && after.packet[..k] == frame[..k]
            && after.state == (if k == 1 then Length else if k == 2 then Rssi else Payload)
            && (k > 1 ==> after.recvdLen == frame[1] + 1)
  {
    hide Ok;
    var es := Bytes(frame[..k]);
    assert es[..k - 1] == Bytes(frame[..k - 1]);
    assert es[k - 1] == Byte(frame[k - 1]);
    if k == 1 {
      assert es[..0] == [];
      FirstStep(r);
      assert frame[..1] == [START_BYTE];
    } else {
      MidFrame(r, frame, k - 1);
      var before := Run(r, es[..k - 1]).0;
      MidStep(before, frame, k);
    }
  }

  lemma FirstStep(r: Receiving)
    requires Ok(r) && r.state == Idle
    ensures var (after, outcome) := Step(r, Byte(START_BYTE));
            Ok(after) && outcome == Quiet && after.state == Length && after.index == 1 && after.packet[..1] == [START_BYTE]
  {
  }

  lemma MidStep(before: Receiving, frame: seq<byte>, k: nat)
    requires Ok(before)
    requires 2 <= k <= |frame| && k < PACKET_SIZE && frame[1] + 1 <= 64 && k < FrameSize(frame[1])
    requires before.index == k - 1 && before.packet[..k - 1] == frame[..k - 1]
    requires before.state == (if k == 2 then Length else if k == 3 then Rssi else Payload)
    requires k > 2 ==> before.recvdLen == frame[1] + 1
    ensures var (after, outcome) := Step(before, Byte(frame[k - 1]));
            outcome == Quiet && after.index == k && after.packet[..k] == frame[..k]
            && after.state == (if k == 2 then Rssi else Payload) && after.recvdLen == frame[1] + 1
  {
    assert frame[..k] == frame[..k - 1] + [frame[k - 1]];
  }

  /** A frame is reported with its last byte and not before, with all its bytes in the packet, if it is
      shorter than the buffer; one that would fill the buffer is dropped when it does. */
  lemma FrameReported(r: Receiving, frame: seq<byte>)
    requires Ok(r) && r.state == Idle
    requires |frame| >= 4 && frame[0] == START_BYTE && frame[1] + 1 <= 64
    requires |frame| == FrameSize(frame[1]) <= PACKET_SIZE || |frame| == PACKET_SIZE < FrameSize(frame[1])
    ensures forall k :: 0 <= k < |frame| ==> Run(r, Bytes(frame[..k])).1 == []
    ensures var (after, packets) := Run(r, Bytes(frame));
            Ok(after) && after.state == Idle && after.index == |frame| && after.packet[..|frame|] == frame
            && packets == if |frame| < PACKET_SIZE then [after.packet] else []
  {
    hide Ok, Step, Run, FrameSize;
    var n := |frame|;
    forall k | 0 <= k < n
      ensures Run(r, Bytes(frame[..k])).1 == []
    {
      if k > 0 {
        MidFrame(r, frame, k);
      } else {
        NothingHeard(r);
        assert Bytes(frame[..0]) == [];
      }
    }
    MidFrame(r, frame, n - 1);
    var es := Bytes(frame);
    assert es[..n - 1] == Bytes(frame[..n - 1]);
    LastStep(Run(r, es[..n - 1]).0, frame);
    RunLast(r, es);
  }

  lemma NothingHeard(r: Receiving)
    requires Ok(r)
    ensures Run(r, []) == (r, [])
  {
  }

  lemma RunLast(r: Receiving, es: seq<Event>)
    requires Ok(r) && es != []
    ensures var (before, packets) := Run(r, es[..|es| - 1]);
            var (after, outcome) := Step(before, es[|es| - 1]);
            Run(r, es) == (after, if outcome == Packet then packets + [after.packet] else packets)
  {
  }

  lemma LastStep(before: Receiving, frame: seq<byte>)
    requires Ok(before) && |frame| >= 4 && frame[1] + 1 <= 64
    requires |frame| == FrameSize(frame[1]) <= PACKET_SIZE || |frame| == PACKET_SIZE < FrameSize(frame[1])
    requires before.index == |frame| - 1 && before.packet[..|frame| - 1] == frame[..|frame| - 1]
    requires before.state == Payload && before.recvdLen == frame[1] + 1
    ensures var (after, outcome) := Step(before, Byte(frame[|frame| - 1]));
            after.state == Idle && after.index == |frame| && after.packet[..|frame|] == frame && Ok(after)
            && outcome == if |frame| < PACKET_SIZE then Packet else Quiet
  {
    assert frame == frame[..|frame| - 1] + [frame[|frame| - 1]];
  }

  /** A frame with length byte 61 leaves the index at the end of the buffer. */
  lemma IndexReachesEnd(r: Receiving, frame: seq<byte>)
    requires Ok(r) && r.state == Idle && |frame| == PACKET_SIZE && frame[0] == START_BYTE && frame[1] == 61
    ensures Run(r, Bytes(frame)).0.index == PACKET_SIZE && Run(r, Bytes(frame)).1 == []
  {
    hide Run, Ok;
    assert (61 as byte) + 1 == 62 && FrameSize(61) == 64;
    FrameReported(r, frame);
  }

  /** A length byte that cannot be right ends the frame at once. */
  lemma LongFrameDropped(r: Receiving, length: byte)
    requires Ok(r) && r.state == Idle && length + 1 > 64
    ensures var (after, packets) := Run(r, Bytes([START_BYTE, length]));
            after.state == Idle && packets == []
  {
    hide Ok, Step, Run;
    var es := Bytes([START_BYTE, length]);
    assert es == [Byte(START_BYTE), Byte(length)];
    assert es[..1] == [Byte(START_BYTE)] && [Byte(START_BYTE)][..0] == [];
    NothingHeard(r);
    FirstStep(r);
    RunLast(r, [Byte(START_BYTE)]);
    DropStep(Step(r, Byte(START_BYTE)).0, length);
    RunLast(r, es);
  }

  lemma DropStep(r: Receiving, length: byte)
    requires Ok(r) && r.state == Length && length + 1 > 64
    ensures var (after, outcome) := Step(r, Byte(length));
            after.state == Idle && outcome == Quiet
  {
  }

  // ---------- Check bytes ----------

  /** A frame with one byte behind the signal strength changed is rejected, unless the change turns it
      into another family with other check bytes. */
  lemma ChangedByteRejected(p: seq<byte>, k: nat, x: byte)
    requires Readable(p) && Genuine(p)
    requires 3 <= k < 3 + p[1] as nat && x != p[k]
    requires k == 3 ==> Family(x) == Family(p[3])
    ensures Readable(p[k := x]) && !Genuine(p[k := x])
  {
    hide Crc8, Family, Complement;
    var n := p[1] as nat;
    CheckSeesChange(p, k, x, if Family(p[3]) == TOPDOG_F1 then 2 + n else 1 + n);
  }

  lemma CheckSeesChange(p: seq<byte>, k: nat, x: byte, end: nat)
    requires 3 <= end <= |p| && 3 <= k < |p| && x != p[k]
    ensures Crc8(0, p[k := x][3..end]) == Crc8(0, p[3..end]) <==> k >= end
  {
    hide Crc8;
    if k < end {
      Crc8SeesOneByte(0, p[3..end], k - 3, x);
      assert p[k := x][3..end] == p[3..end][k - 3 := x];
    } else {
      assert p[k := x][3..end] == p[3..end];
    }
  }

  /** A packet is genuine if and only if its family is 1 and the code of all its bytes leaves nothing, or
      its family is 6 or 4 and that of all but the last does, which is the complement of the one before. */
  lemma GenuineExactly(p: seq<byte>)
    requires Readable(p)
    ensures var family, n := p[3] >> 5, p[1] as nat;
            Genuine(p) <==>
            if family == 1 then 1 <= n && Crc8(0, p[3..3 + n]) == 0
            else (family == 6 || family == 4) && 2 <= n && Crc8(0, p[3..2 + n]) == 0 && p[n + 1] ^ p[n + 2] == 0xFF
  {
    hide Crc8, Complement, Family, Genuine;
    FamilyBits(p[3]);
    if Family(p[3]) == TOPDOG_F1 {
      OneChecked(p);
    } else if TwoCheckBytes(p[3]) {
      TwoChecked(p);
    } else {
      UnknownFamily(p);
    }
  }

  lemma OneChecked(p: seq<byte>)
    requires Readable(p) && Family(p[3]) == TOPDOG_F1
    ensures Genuine(p) <==> Crc8(0, p[3..3 + p[1] as nat]) == 0
  {
    hide Crc8, Complement, Family;
    CodeAtEnd(p, 3, p[1] as nat + 2);
  }

  lemma TwoChecked(p: seq<byte>)
    requires Readable(p) && TwoCheckBytes(p[3])
    ensures var n := p[1] as nat;
            Genuine(p) <==> Crc8(0, p[3..2 + n]) == 0 && p[n + 1] ^ p[n + 2] == 0xFF
  {
    hide Crc8, Complement, Family;
    var n := p[1] as nat;
    CodeAtEnd(p, 3, n + 1);
    Complements(p[n + 1], p[n + 2]);
  }

  lemma UnknownFamily(p: seq<byte>)
    requires Readable(p) && Family(p[3]) != TOPDOG_F1 && !TwoCheckBytes(p[3])
    ensures !Genuine(p)
  {
    hide Crc8, Complement, Family;
  }

  lemma FamilyBits(header: byte)
    ensures Family(header) == header >> 5
  {
  }

  lemma Complements(x: byte, y: byte)
    ensures y == Complement(x) <==> x ^ y == 0xFF
  {
  }

  /** The code of a stretch stands behind it exactly if the stretch with it leaves nothing. */
  lemma CodeAtEnd(p: seq<byte>, from: nat, end: nat)
    requires from <= end < |p|
    ensures Crc8(0, p[from..end]) == p[end] <==> Crc8(0, p[from..end + 1]) == 0
  {
    hide Crc8;
    var c := Crc8(0, p[from..end]);
    Crc8Residue(0, p[from..end]);
    assert p[from..end + 1] == p[from..end] + [p[end]];
    if c != p[end] {
      var m := p[from..end] + [c];
      Crc8SeesOneByte(0, m, end - from, p[end]);
      assert m[end - from := p[end]] == p[from..end] + [p[end]];
    }
  }

  /** What the controller hands its module is what goes on the air, behind a length byte that counts it. */
  lemma SentAsHeard(body: seq<byte>, rssi: byte)
    requires |body| == 8
    ensures var sent, heard := Frame(body), OnAir(body, rssi);
            |sent| == 3 + Number(sent[2]) && sent[2] == heard[1] && sent[3..] == heard[3..]
  {
    hide Checked;
  }

  // ---------- Frames that come back ----------

  /** What stands where in a frame with a body of n bytes. */
  lemma FrameParts(body: seq<byte>, length: byte, rssi: byte, packet: seq<byte>)
    requires 1 <= |body| <= 58 && |packet| == PACKET_SIZE && Number(length) == |body| + 2
    requires packet[..|body| + 5] == Air(body, length, rssi)
    ensures packet[0] == START_BYTE && packet[1] == length && packet[2] == rssi && packet[3..3 + |body|] == body
    ensures packet[3 + |body|] == Crc8(0, body) && packet[4 + |body|] == Complement(Crc8(0, body))
  {
    hide Crc8, Complement;
    PartsOf(packet, [START_BYTE, length, rssi], body, [Crc8(0, body), Complement(Crc8(0, body))]);
  }

  lemma PartsOf(s: seq<byte>, head: seq<byte>, body: seq<byte>, tail: seq<byte>)
    requires |head| == 3 && |tail| == 2 && |s| >= |body| + 5 && s[..|body| + 5] == head + (body + tail)
    ensures s[0] == head[0] && s[1] == head[1] && s[2] == head[2] && s[3..3 + |body|] == body && s[3 + |body|] == tail[0] && s[4 + |body|] == tail[1]
  {
    var n := |body|;
    assert forall i :: 0 <= i < n + 5 ==> s[i] == (head + (body + tail))[i] by {
      assert forall i :: 0 <= i < n + 5 ==> s[..n + 5][i] == s[i];
    }
  }

  lemma FrameIsGenuine(body: seq<byte>, length: byte, rssi: byte, packet: seq<byte>)
    requires 1 <= |body| <= 58 && |packet| == PACKET_SIZE && Number(length) == |body| + 2
    requires packet[..|body| + 5] == Air(body, length, rssi)
    requires Family(body[0]) == TOPDOG_F2
    ensures Readable(packet) && Genuine(packet) && packet[3..3 + |body|] == body
  {
    hide Crc8, Complement, Family, Air;
    FrameParts(body, length, rssi, packet);
    assert packet[3] == packet[3..3 + |body|][0];
  }

  /** The percentage a receiver finds in the ramp frame for a zone. */
  function RampPercent(z: Zone): byte {
    if z.targetState then z.powerLevel else 0
  }

  predicate Addressable(z: Zone) {
    z.buildingId < 8 && z.groupId < 4096 && z.powerLevel <= 100
  }

  lemma SentPercent(z: Zone)
    requires Addressable(z)
    ensures Percent(SentLevel(z)) == RampPercent(z)
  {
    if z.targetState {
      PercentRoundTrip(z.powerLevel);
    } else {
      PercentRoundTrip(0);
      assert Level(0) == 0;
    }
  }

  lemma OffIsZero(z: Zone)
    ensures !z.targetState ==> SentLevel(z) == 0
  {
  }

  lemma RampOperation(packet: seq<byte>)
    requires |packet| == PACKET_SIZE && packet[7] == RAMP_FUNCTION_BYTE
    ensures Operation(packet) == (RAMP, 8)
  {
  }

  /** The fields of a ramp frame are read back as they were: building, house, group, percentage and
      kind of device. */
  lemma RampRecovered(z: Zone, timeToLive: byte, rssi: byte, packet: seq<byte>, last: byte, q: seq<SentRing.Message>)
    requires Addressable(z) && timeToLive < 4
    requires |packet| == PACKET_SIZE && packet[..13] == OnAir(RampBody(z, timeToLive), rssi)
    ensures TimeToLive(packet[3]) == timeToLive && Building(packet[4]) == z.buildingId
            && House(packet[4], packet[5]) == z.houseId && Group(packet[5], packet[6]) == z.groupId
            && packet[9] == z.rampRate && (!z.targetState ==> packet[8] == 0)
    ensures Readable(packet)
    ensures Handled(packet, false, last, q) ==
            (if Repeats(q, packet, RampPercent(z)) then []
             else [Ramp(z.buildingId, z.houseId, z.groupId, RampPercent(z), z.deviceType)], last)
  {
    hide Header, Address0, Address1, Address2, Family, AddressMode, TimeToLive, Building, House, Group, IsRoom, Percent,
         SentLevel, RampPercent, Genuine, Readable, Air, Operation, Repeats;
    var body := RampBody(z, timeToLive);
    HeaderRoundTrip(TOPDOG_F2, TDAM_ANON_MULTICAST, timeToLive);
    AddressRoundTrip(z.buildingId, z.houseId, z.groupId);
    SentPercent(z);
    OffIsZero(z);
    FrameIsGenuine(body, 10, rssi, packet);
    ReadBody(packet, body);
    RampOperation(packet);
  }

  lemma ReadBody(packet: seq<byte>, body: seq<byte>)
    requires |packet| == PACKET_SIZE && |body| == 8 && packet[3..11] == body
    ensures packet[3] == body[0] && packet[4] == body[1] && packet[5] == body[2] && packet[6] == body[3]
    ensures packet[7] == body[4] && packet[8] == body[5] && packet[9] == body[6] && packet[10] == body[7]
  {
    forall i | 0 <= i < 8
      ensures packet[3 + i] == body[i]
    {
      assert packet[3..11][i] == body[i];
    }
  }

  /** After any run of bytes and timeouts that leaves the receiver waiting, the ramp frame built for a
      zone is reported with its last byte, not before and only once, and handled as the ramp of that
      zone. */
  lemma RampRoundTrip(buffer: seq<byte>, es: seq<Event>, z: Zone, rssi: byte, last: byte, q: seq<SentRing.Message>)
    requires |buffer| == PACKET_SIZE && Run(Start(buffer), es).0.state == Idle && Addressable(z)
    ensures var frame := OnAir(RampBody(z, TTL_TWO), rssi);
            forall k :: 0 <= k < |frame| ==> Run(Start(buffer), es + Bytes(frame[..k])).1 == Run(Start(buffer), es).1
    ensures var frame := OnAir(RampBody(z, TTL_TWO), rssi);
            var (after, packets) := Run(Start(buffer), es + Bytes(frame));
            after.state == Idle
            && packets == Run(Start(buffer), es).1 + [after.packet]
            && Readable(after.packet)
            && Handled(after.packet, false, last, q) ==
               ([Ramp(z.buildingId, z.houseId, z.groupId, RampPercent(z), z.deviceType)], last)
  {
    hide Run, RampBody, Checked, Handled, RampPercent, Building, House, Group, TimeToLive, Readable;
    var start := Start(buffer);
    var frame := OnAir(RampBody(z, TTL_TWO), rssi);
    var (r, before) := Run(start, es);
    FrameReported(r, frame);
    forall k | 0 <= k < |frame|
      ensures Run(start, es + Bytes(frame[..k])).1 == before
    {
      RunConcat(start, es, Bytes(frame[..k]));
      assert before + [] == before;
    }
    RunConcat(start, es, Bytes(frame));
    var packet := Run(r, Bytes(frame)).0.packet;
    RampRecovered(z, TTL_TWO, rssi, packet, last, q);
    NotAtItsEnd(packet, q, RampPercent(z));
  }

  lemma NotAtItsEnd(packet: seq<byte>, q: seq<SentRing.Message>, percent: byte)
    requires |packet| == PACKET_SIZE && TimeToLive(packet[3]) == TTL_TWO
    ensures !Repeats(q, packet, percent)
  {
    hide TimeToLive;
  }

  // ---------- Other commands ----------

  /** The header and the group address of a frame another device sends. */
  function GroupAddress(buildingId: byte, houseId: byte, groupId: word, mode: byte, timeToLive: byte): (s: seq<byte>)
    ensures |s| == 4
  {
    [Header(TOPDOG_F2, mode, timeToLive), Address0(buildingId, houseId), Address1(houseId, groupId), Address2(groupId)]
  }

  /** A group address a frame can carry, in one of the three modes that have one. */
  predicate InRange(buildingId: byte, groupId: word, mode: byte) {
    buildingId < 8 && groupId < 4096 && mode in {TDAM_BROADCAST, TDAM_ANON_MULTICAST, TDAM_MULTICAST}
  }

  /** What the receiver reads off a frame for a group, whatever its operation. */
  lemma GroupRecovered(b: byte, h: byte, g: word, mode: byte, timeToLive: byte, rest: seq<byte>, length: byte, rssi: byte,
                       packet: seq<byte>)
    requires InRange(b, g, mode) && timeToLive < 4 && 1 <= |rest| <= 54 && Number(length) == |rest| + 6
    requires |packet| == PACKET_SIZE && packet[..|rest| + 9] == Air(GroupAddress(b, h, g, mode, timeToLive) + rest, length, rssi)
    ensures Readable(packet) && Genuine(packet) && ForGroup(packet)
    ensures Building(packet[4]) == b && House(packet[4], packet[5]) == h && Group(packet[5], packet[6]) == g
    ensures forall i :: 0 <= i < |rest| ==> packet[7 + i] == rest[i]
  {
    hide Header, Address0, Address1, Address2, Family, AddressMode, Building, House, Group, IsRoom, Genuine, Readable, Air;
    var body := GroupAddress(b, h, g, mode, timeToLive) + rest;
    ModeRoundTrip(mode, timeToLive);
    AddressRoundTrip(b, h, g);
    FrameIsGenuine(body, length, rssi, packet);
    forall i | 0 <= i < |body|
      ensures packet[3 + i] == body[i]
    {
      assert packet[3..3 + |body|][i] == packet[3 + i];
    }
    assert packet[3 + 0] == body[0] && packet[3 + 1] == body[1] && packet[3 + 2] == body[2] && packet[3 + 3] == body[3];
    forall i | 0 <= i < |rest|
      ensures packet[7 + i] == rest[i]
    {
      assert packet[3 + (4 + i)] == body[4 + i];
    }
  }

  lemma ModeRoundTrip(mode: byte, timeToLive: byte)
    requires mode in {TDAM_BROADCAST, TDAM_ANON_MULTICAST, TDAM_MULTICAST} && timeToLive < 4
    ensures var header := Header(TOPDOG_F2, mode, timeToLive);
            Family(header) == TOPDOG_F2 && AddressMode(header) == mode
  {
    HeaderRoundTrip(TOPDOG_F2, mode, timeToLive);
  }

  /** In test mode a genuine frame is shown as it came, with its signal strength and its check bytes, and
      nothing is done for it. */
  lemma TestModeShows(body: seq<byte>, length: byte, rssi: byte, packet: seq<byte>, last: byte, q: seq<SentRing.Message>)
    requires 1 <= |body| <= 58 && |packet| == PACKET_SIZE && Number(length) == |body| + 2 && Family(body[0]) == TOPDOG_F2
    requires packet[..|body| + 5] == Air(body, length, rssi)
    ensures Readable(packet) && Handled(packet, true, last, q) == ([Heard(rssi, 0xB2, Checked(body))], last)
  {
    hide Crc8, Complement, Family, Air, Genuine, Readable;
    FrameParts(body, length, rssi, packet);
    FrameIsGenuine(body, length, rssi, packet);
    TwoMore(packet, 3, 3 + |body|);
  }

  lemma TwoMore(s: seq<byte>, from: nat, end: nat)
    requires from <= end && end + 2 <= |s|
    ensures s[from..end + 2] == s[from..end] + [s[end], s[end + 1]]
  {
  }

  /** A short operation keeps its code under any two length bits. */
  lemma ShortOperation(packet: seq<byte>, op: byte)
    requires |packet| == PACKET_SIZE && packet[7] & 0x3F == op && op < 0x30
    ensures Operation(packet) == (op as word, 8)
  {
  }

  /** A status report is handed on with its level and kind of device, whatever was sent before. */
  lemma StatusRecovered(b: byte, h: byte, g: word, mode: byte, timeToLive: byte, lengthBits: byte, level: byte, deviceType: byte,
                        rssi: byte, packet: seq<byte>, last: byte, q: seq<SentRing.Message>)
    requires InRange(b, g, mode) && timeToLive < 4 && level <= 100
    requires |packet| == PACKET_SIZE
    requires packet[..12] ==
             Air(GroupAddress(b, h, g, mode, timeToLive) + [(lengthBits & 0xC0) | 0x13, Level(level), deviceType], 9, rssi)
    ensures Readable(packet) && Handled(packet, false, last, q) == ([Status(b, h, g, deviceType, level)], last)
  {
    hide GroupAddress, Building, House, Group, Percent, Level, Genuine, Readable, ForGroup, Air, Operation;
    var rest := [(lengthBits & 0xC0) | 0x13, Level(level), deviceType];
    GroupRecovered(b, h, g, mode, timeToLive, rest, 9, rssi, packet);
    assert packet[7 + 0] == rest[0] && packet[7 + 1] == rest[1] && packet[7 + 2] == rest[2];
    CodeKept(lengthBits, 0x13);
    ShortOperation(packet, 0x13);
    PercentRoundTrip(level);
  }

  lemma CodeKept(lengthBits: byte, op: byte)
    requires op < 0x40
    ensures ((lengthBits & 0xC0) | op) & 0x3F == op
  {
  }

  /** The commands of scene controllers: each is carried out with the fields its frame holds, unless its
      sequence number is the one remembered and not 0; a request or an adjustment is remembered. */
  lemma MasterOffRecovered(b: byte, h: byte, g: word, mode: byte, timeToLive: byte, lengthBits: byte, unused: byte, sequence: byte,
                           deviceType: byte, rssi: byte, packet: seq<byte>, last: byte, q: seq<SentRing.Message>)
    requires InRange(b, g, mode) && timeToLive < 4 && |packet| == PACKET_SIZE
    requires packet[..13] ==
             Air(GroupAddress(b, h, g, mode, timeToLive) + [(lengthBits & 0xC0) | 0x2F, unused, sequence, deviceType], 10, rssi)
    ensures Readable(packet) && Handled(packet, false, last, q) ==
            (if sequence != last || sequence == 0 then [MasterOff(b, h, g, deviceType, if deviceType == 0 then 0 else 3)] else [], last)
  {
    hide GroupAddress, Building, House, Group, Percent, Genuine, Readable, ForGroup, Air, Operation;
    var rest := [(lengthBits & 0xC0) | 0x2F, unused, sequence, deviceType];
    GroupRecovered(b, h, g, mode, timeToLive, rest, 10, rssi, packet);
    assert packet[7 + 0] == rest[0] && packet[7 + 2] == rest[2] && packet[7 + 3] == rest[3];
    CodeKept(lengthBits, 0x2F);
    ShortOperation(packet, 0x2F);
  }

  /** The byte of a scene request that holds the bank and two flags. */
  function Flags(bank: byte, on: bool, slow: bool): byte {
    bank | (if on then 0x40 else 0) | (if slow then 0x80 else 0)
  }

  lemma FlagsRoundTrip(bank: byte, on: bool, slow: bool)
    requires bank < 64
    ensures var f := Flags(bank, on, slow);
            Bank(f) == bank && Bit(f, 0x40) == on && Bit(f, 0x80) == slow
  {
  }

  lemma SceneRequestRecovered(b: byte, h: byte, g: word, mode: byte, timeToLive: byte, lengthBits: byte, unused: byte, bank: byte,
                              on: bool, slow: bool, deviceType: byte, sequence: byte, rssi: byte, packet: seq<byte>, last: byte,
                              q: seq<SentRing.Message>)
    requires InRange(b, g, mode) && timeToLive < 4 && bank < 64 && |packet| == PACKET_SIZE
    requires packet[..14] ==
             Air(GroupAddress(b, h, g, mode, timeToLive)
                   + [(lengthBits & 0xC0) | 0x2B, unused, Flags(bank, on, slow), deviceType, sequence], 11, rssi)
    ensures Readable(packet) && Handled(packet, false, last, q) ==
            if sequence != last || sequence == 0
            then ([SceneRequest(b, h, g, bank, on, deviceType, if slow then 3 else 0)], sequence) else ([], last)
  {
    hide GroupAddress, Building, House, Group, Percent, Genuine, Readable, ForGroup, Air, Operation, Bank, Bit, Flags;
    var rest := [(lengthBits & 0xC0) | 0x2B, unused, Flags(bank, on, slow), deviceType, sequence];
    GroupRecovered(b, h, g, mode, timeToLive, rest, 11, rssi, packet);
    assert packet[7 + 0] == rest[0] && packet[7 + 2] == rest[2] && packet[7 + 3] == rest[3] && packet[7 + 4] == rest[4];
    CodeKept(lengthBits, 0x2B);
    ShortOperation(packet, 0x2B);
    FlagsRoundTrip(bank, on, slow);
  }

  lemma SceneAdjustRecovered(b: byte, h: byte, g: word, mode: byte, timeToLive: byte, lengthBits: byte, bank: byte, unused: byte,
                             up: bool, sequence: byte, rssi: byte, packet: seq<byte>, last: byte, q: seq<SentRing.Message>)
    requires InRange(b, g, mode) && timeToLive < 4 && |packet| == PACKET_SIZE
    requires packet[..14] ==
             Air(GroupAddress(b, h, g, mode, timeToLive)
                   + [(lengthBits & 0xC0) | 0x2D, bank, Flags(0, false, up), unused, sequence], 11, rssi)
    ensures Readable(packet) && Handled(packet, false, last, q) ==
            if sequence != last || sequence == 0 then ([SceneAdjust(b, h, g, bank, 5, up)], sequence) else ([], last)
  {
    hide GroupAddress, Building, House, Group, Percent, Genuine, Readable, ForGroup, Air, Operation, Bank, Bit, Flags;
    var rest := [(lengthBits & 0xC0) | 0x2D, bank, Flags(0, false, up), unused, sequence];
    GroupRecovered(b, h, g, mode, timeToLive, rest, 11, rssi, packet);
    assert packet[7 + 0] == rest[0] && packet[7 + 1] == rest[1] && packet[7 + 2] == rest[2] && packet[7 + 4] == rest[4];
    CodeKept(lengthBits, 0x2D);
    ShortOperation(packet, 0x2D);
    FlagsRoundTrip(0, false, up);
  }

  /** Nothing else is acted on, neither another short operation nor any of two bytes. */
  lemma OthersIgnored(packet: seq<byte>, last: byte, q: seq<SentRing.Message>)
    requires Readable(packet)
    requires packet[7] & 0x3F != 0x05 && packet[7] & 0x3F != 0x06 && packet[7] & 0x3F != 0x13
    requires packet[7] & 0x3F != 0x2B && packet[7] & 0x3F != 0x2D && packet[7] & 0x3F != 0x2F
    ensures Handled(packet, false, last, q) == ([], last)
  {
    hide Genuine, ForGroup, Building, House, Group, Bit, Bank, Repeats, Percent;
    OtherOperation(packet[7], packet[8]);
  }

  lemma OtherOperation(b: byte, c: byte)
    requires b & 0x3F != 0x05 && b & 0x3F != 0x06 && b & 0x3F != 0x13
    requires b & 0x3F != 0x2B && b & 0x3F != 0x2D && b & 0x3F != 0x2F
    ensures var op := if Opcode(b) >= 0x30 then LongOpcode(Opcode(b), c) else Opcode(b);
            op !in {RAMP, CANCEL_RAMP, STATUS, SCENE_REQUESTED, SCENE_ADJUST, SCENE_CONTROLLER_MASTER_OFF}
  {
  }

  /** The room two bytes of a room address stand for. */
  function Room(address1: byte, address2: byte): byte {
    ((address1 & 0x07) << 3) | (address2 >> 5)
  }

  /** A room address gives back house, building and room exactly when the building is below 8 and the
      room below 64. */
  lemma RoomRoundTrip(buildingId: byte, houseId: byte, roomId: byte)
    ensures var a0, a1, a2 := Address0(buildingId, houseId), RoomAddress1(houseId, roomId), RoomAddress2(roomId);
            && House(a0, a1) == houseId && IsRoom(a1)
            && (Building(a0) == buildingId <==> buildingId < 8) && (Room(a1, a2) == roomId <==> roomId < 64)
  {
  }

  /** A command to a room is taken for genuine and then left alone, whatever house, room and level it
      carries. */
  lemma RampAllIgnored(buildingId: byte, roomId: byte, houseId: byte, powerLevel: byte, rssi: byte, packet: seq<byte>,
                       last: byte, q: seq<SentRing.Message>)
    requires |packet| == PACKET_SIZE
    requires packet[..13] == OnAir(RampAllBody(buildingId, roomId, houseId, powerLevel), rssi)
    ensures Readable(packet) && Genuine(packet) && Handled(packet, false, last, q) == ([], last)
    ensures House(packet[4], packet[5]) == houseId && (buildingId < 8 ==> Building(packet[4]) == buildingId)
            && (roomId < 64 ==> Room(packet[5], packet[6]) == roomId)
            && Opcode(packet[7]) == RAMP && (powerLevel <= 100 ==> Percent(packet[8]) == powerLevel)
            && packet[9] == 50 && packet[10] == DIMMER_TYPE
  {
    hide Header, Family, IsRoom, Genuine, Readable, Air, Asked, Level, Percent, Building, House, Room, Address0, RoomAddress1, RoomAddress2;
    PercentRoundTrip(powerLevel);
    RoomRoundTrip(buildingId, houseId, roomId);
    assert Opcode(RAMP_FUNCTION_BYTE) == RAMP;
    var body := RampAllBody(buildingId, roomId, houseId, powerLevel);
    HeaderRoundTrip(TOPDOG_F2, TDAM_ANON_MULTICAST, TTL_TWO);
    RoomIsRoom(houseId, roomId);
    FrameIsGenuine(body, 10, rssi, packet);
    ReadBody(packet, body);
  }

  /** The controller's own ramp command, heard again at the end of its way, is dropped exactly when the
      ring had room for it and either the frame carried the power level the ring remembers, or an earlier
      message matches: a command to switch off is remembered with the level of the zone, so its echo is
      taken for a new command. */
  lemma EchoDroppedExactly(z: Zone, timeToLive: byte, rssi: byte, packet: seq<byte>, last: byte,
                           q: seq<SentRing.Message>, now: Uint32, stamp: Uint32)
    requires Addressable(z) && timeToLive < 2
    requires |packet| == PACKET_SIZE && packet[..13] == OnAir(RampBody(z, timeToLive), rssi)
    ensures Readable(packet)
    ensures Handled(packet, false, last, AfterAdd(q, z, now, stamp)).0 == [] <==>
            |SentRing.Purge(q, now)| < SentRing.MAX_SENT - 1
            && (z.targetState || z.powerLevel == 0
                || exists m :: m in SentRing.Purge(q, now)
                               && SentRing.IsMatch(m, Number(z.buildingId), Number(z.houseId), WordNumber(z.groupId), 0))
  {
    hide Handled, RampBody, OnAir, TimeToLive, Building, House, Group, Readable, SentRing.Purge, Number, WordNumber;
    var all := AfterAdd(q, z, now, stamp);
    RampRecovered(z, timeToLive, rssi, packet, last, all);
    var kept := SentRing.Purge(q, now);
    NumbersApart(timeToLive, z.powerLevel);
    if |kept| < SentRing.MAX_SENT - 1 {
      var own := all[|kept|];
      assert all == kept + [own];
      assert own in all && forall m :: m in all <==> m in kept || m == own;
    }
  }

  /** So the first echo of switching off a zone that stood at full power is executed. */
  lemma OffEchoIsHeard(z: Zone, rssi: byte, packet: seq<byte>, last: byte, now: Uint32, stamp: Uint32)
    requires z == Zone(1, 2, 3, false, 100, 50, DIMMER_TYPE)
    requires |packet| == PACKET_SIZE && packet[..13] == OnAir(RampBody(z, 1), rssi)
    ensures Readable(packet) && Handled(packet, false, last, AfterAdd([], z, now, stamp)) == ([Ramp(1, 2, 3, 0, DIMMER_TYPE)], last)
  {
    hide Handled, RampBody, OnAir, Readable;
    EchoDroppedExactly(z, 1, rssi, packet, last, [], now, stamp);
    RampRecovered(z, 1, rssi, packet, last, AfterAdd([], z, now, stamp));
  }

  lemma NumbersApart(timeToLive: byte, percent: byte)
    requires timeToLive < 2
    ensures Number(timeToLive) < 2 && Number(0) == 0 && (Number(percent) == 0 <==> percent == 0)
  {
  }
}
