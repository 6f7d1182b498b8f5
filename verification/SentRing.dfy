/** Embedded/Sources/RFM100_Tasks.c: the ring of messages sent lately, by which the controller tells
    its own messages when they come back repeated. */
module SentRing {
  import opened Words

  const MAX_SENT: nat := 100
  const PURGE_SECONDS: nat := 5

  datatype Message = Message(time: Uint32, groupId: Word, buildingId: Byte, houseId: Byte, powerLevel: Byte)

  /** What an add takes from the zone it is about. */
  datatype Zone = Zone(groupId: Word, buildingId: Byte, houseId: Byte, powerLevel: Byte)

  /** Seconds since a message was sent, in 32-bit unsigned arithmetic. */
  function Age(m: Message, now: Uint32): Uint32 {
    (now + UINT32 - m.time) % UINT32
  }

  /** The queue without the old messages at its front. */
  function Purge(q: seq<Message>, now: Uint32): (r: seq<Message>)
    ensures |r| <= |q| && r == q[|q| - |r|..]
  {
    if q == [] || Age(q[0], now) <= PURGE_SECONDS then q else Purge(q[1..], now)
  }

  lemma PurgeOnce(q: seq<Message>, now: Uint32)
    ensures q == [] ==> Purge(q, now) == []
    ensures q != [] ==> Purge(q, now) == if Age(q[0], now) > PURGE_SECONDS then Purge(q[1..], now) else q
  {
  }

  predicate IsMatch(m: Message, buildingId: Byte, houseId: Byte, groupId: Word, powerLevel: Byte) {
    m.buildingId == buildingId && m.houseId == houseId && m.groupId == groupId && m.powerLevel == powerLevel
  }

  /** A slot as an add leaves it: without a zone only the time is new. */
  function Stamped(slot: Message, zone: Option<Zone>, now: Uint32): Message {
    match zone
    case None => slot.(time := now)
    case Some(z) => Message(now, z.groupId, z.buildingId, z.houseId, z.powerLevel)
  }

  /** How far the write index is ahead of the read index. */
  function Span(read: Byte, write: Byte): (n: nat)
    requires read < MAX_SENT && write < MAX_SENT
    ensures n < MAX_SENT && (n == 0 <==> read == write)
  {
    if write >= read then write - read else MAX_SENT - (read - write)
  }

  function Next(index: Byte): (i: Byte)
    requires index < MAX_SENT
    ensures i < MAX_SENT
  {
    (index + 1) % MAX_SENT
  }

  function Slot(read: Byte, k: nat): (i: Byte)
    requires read < MAX_SENT && k < MAX_SENT
    ensures i < MAX_SENT
  {
    if read + k < MAX_SENT then read + k else read + k - MAX_SENT
  }

  /** The messages that stand, oldest first, in count slots from the read index on. */
  function View(slots: seq<Message>, read: Byte, count: nat): (q: seq<Message>)
    requires |slots| == MAX_SENT && read < MAX_SENT && count < MAX_SENT
    ensures |q| == count
    ensures forall k :: 0 <= k < count ==> q[k] == slots[Slot(read, k)]
  {
    seq(count, k requires 0 <= k < count => slots[Slot(read, k)])
  }

  lemma ViewTail(slots: seq<Message>, read: Byte, write: Byte)
    requires |slots| == MAX_SENT && read < MAX_SENT && write < MAX_SENT && read != write
    ensures var next := Next(read);
            Span(next, write) == Span(read, write) - 1
            && View(slots, next, Span(next, write)) == View(slots, read, Span(read, write))[1..]
  {
    var next := Next(read);
    assert next == Slot(read, 1);
    var n := Span(read, write);
    assert Span(next, write) == n - 1;
    forall k | 0 <= k < n - 1
      ensures Slot(next, k) == Slot(read, k + 1)
    {
    }
    assert View(slots, next, n - 1) == View(slots, read, n)[1..];
  }

  lemma ViewPush(slots: seq<Message>, read: Byte, write: Byte, m: Message)
    requires |slots| == MAX_SENT && read < MAX_SENT && write < MAX_SENT
    ensures var next := Next(write);
            var n := Span(read, write);
            View(slots[write := m], read, Span(read, next)) == if n < MAX_SENT - 1 then View(slots, read, n) + [m] else []
  {
    var next := Next(write);
    var n := Span(read, write);
    assert next == Slot(write, 1);
    if n < MAX_SENT - 1 {
      assert Span(read, next) == n + 1 && Slot(read, n) == write;
      forall k | 0 <= k < n
        ensures Slot(read, k) != write
      {
      }
      assert View(slots[write := m], read, n + 1) == View(slots, read, n) + [m];
    } else {
      assert Span(read, next) == 0;
    }
  }

  class Ring {
    const messages: array<Message>
    var readIndex: Byte
    var writeIndex: Byte

    ghost predicate Valid()
      reads this
    {
      messages.Length == MAX_SENT && readIndex < MAX_SENT && writeIndex < MAX_SENT
    }

    /** The queue the ring stands for. */
    ghost function Contents(): (q: seq<Message>)
      requires Valid()
      reads this, messages
    {
      View(messages[..], readIndex, Span(readIndex, writeIndex))
    }

    constructor (messages: array<Message>)
      requires messages.Length == MAX_SENT
      ensures Valid() && this.messages == messages && Contents() == []
    {
      this.messages := messages;
      readIndex, writeIndex := 0, 0;
    }

    /** GetNumItemsInSentMessageQueue, on any two index bytes. */
    method GetNumItems() returns (n: Byte)
      modifies this`readIndex, this`writeIndex
      ensures old(readIndex < MAX_SENT && writeIndex < MAX_SENT) ==>
                readIndex == old(readIndex) && writeIndex == old(writeIndex) && n == Span(readIndex, writeIndex)
      ensures n <= MAX_SENT
      ensures (readIndex == old(readIndex) && writeIndex == old(writeIndex)) || (n == readIndex == writeIndex == 0)
    {
      if writeIndex >= readIndex {
        n := writeIndex - readIndex;
      } else {
        n := (MAX_SENT + 256 - (readIndex - writeIndex)) % 256;
      }
      if n > MAX_SENT {
        n, writeIndex, readIndex := 0, 0, 0;
      }
    }

    /** ClearMessagesFromSentQueue */
    method ClearOld(now: Uint32)
      requires Valid()
      modifies this`readIndex, this`writeIndex
      ensures Valid() && writeIndex == old(writeIndex) && Contents() == Purge(old(Contents()), now)
    {
      hide View, Span, Next, Age, Purge;
      var toRead := GetNumItems();
      var itemsRead: Byte, current: Byte := 0, readIndex;
      ghost var q := Contents();
      while itemsRead < toRead
        invariant Valid() && writeIndex == old(writeIndex) && itemsRead <= toRead
        invariant itemsRead < toRead ==> current == readIndex
        invariant itemsRead < toRead || |Contents()| == 0 ==>
                    |Contents()| == toRead - itemsRead && Purge(q, now) == Purge(Contents(), now)
        invariant itemsRead == toRead ==> Contents() == Purge(q, now)
      {
        ghost var before := Contents();
        PurgeOnce(before, now);
        assert before[0] == messages[current];
        if Age(messages[current], now) > PURGE_SECONDS {
          ViewTail(messages[..], readIndex, writeIndex);
          readIndex := Next(readIndex);
          current := Next(current);
          itemsRead := itemsRead + 1;
          assert Contents() == before[1..];
        } else {
          itemsRead := toRead;
        }
      }
    }

    /** AddToSentMessageQueue, reading the clock once to purge and once to stamp. A hundredth live
        message makes the two indexes equal, and with that the ring empty. */
    method Add(zone: Option<Zone>, now: Uint32, stamp: Uint32)
      requires Valid()
      modifies this`readIndex, this`writeIndex, messages
      ensures Valid()
      ensures var q := Purge(old(Contents()), now);
              Contents() == if |q| < MAX_SENT - 1 then q + [Stamped(old(messages[writeIndex]), zone, stamp)] else []
    {
      hide View, Span, Purge, Stamped;
      ClearOld(now);
      var n := GetNumItems();
      if n < MAX_SENT {
        Push(zone, stamp);
      }
    }

    method Push(zone: Option<Zone>, stamp: Uint32)
      requires Valid()
      modifies this`writeIndex, messages
      ensures Valid()
      ensures var q := old(Contents());
              Contents() == if |q| < MAX_SENT - 1 then q + [Stamped(old(messages[writeIndex]), zone, stamp)] else []
    {
      hide View, Span, Next, Stamped;
      ghost var slots := messages[..];
      WriteSlot(zone, stamp);
      ViewPush(slots, readIndex, writeIndex, Stamped(old(messages[writeIndex]), zone, stamp));
      writeIndex := Next(writeIndex);
    }

    method WriteSlot(zone: Option<Zone>, stamp: Uint32)
      requires Valid()
      modifies messages
      ensures messages[..] == old(messages[..])[writeIndex := Stamped(old(messages[writeIndex]), zone, stamp)]
    {
      messages[writeIndex] := messages[writeIndex].(time := stamp);
      if zone.Some? {
        var z := zone.value;
        messages[writeIndex] := messages[writeIndex].(groupId := z.groupId, buildingId := z.buildingId,
                                                      houseId := z.houseId, powerLevel := z.powerLevel);
      }
    }

    /** IsMessageARepeat */
    method IsRepeat(buildingId: Byte, houseId: Byte, groupId: Word, powerLevel: Byte, timeToLive: Byte)
      returns (repeated: bool)
      requires Valid()
      modifies this`readIndex, this`writeIndex
      ensures Valid() && readIndex == old(readIndex) && writeIndex == old(writeIndex)
      ensures repeated <==>
                && timeToLive < 2
                && exists m :: m in Contents() && m.buildingId == buildingId && m.houseId == houseId && m.groupId == groupId
                               && m.powerLevel == powerLevel
    {
      repeated := false;
      if timeToLive < 2 {
        var toRead := GetNumItems();
        var itemsRead: Byte, current: Byte := 0, readIndex;
        ghost var q := Contents();
        while itemsRead < toRead
          invariant itemsRead <= toRead && current < MAX_SENT && (itemsRead < toRead ==> current == Slot(readIndex, itemsRead))
          invariant !repeated ==> forall k :: 0 <= k < itemsRead ==> !IsMatch(q[k], buildingId, houseId, groupId, powerLevel)
          invariant repeated ==> itemsRead == toRead && exists m :: m in q && IsMatch(m, buildingId, houseId, groupId, powerLevel)
        {
          var m := messages[current];
          assert m == q[itemsRead] && m in q;
          if m.buildingId == buildingId && m.houseId == houseId && m.groupId == groupId && m.powerLevel == powerLevel {
            assert IsMatch(m, buildingId, houseId, groupId, powerLevel);
            repeated := true;
            itemsRead := toRead;
          } else {
            current := Next(current);
            itemsRead := itemsRead + 1;
          }
        }
      }
    }
  }

  // ---------- What the ring remembers ----------

  /** Sent one after the other by a clock that does not go back, and not after now. */
  predicate InOrder(q: seq<Message>, now: Uint32) {
    (forall i, j :: 0 <= i <= j < |q| ==> q[i].time <= q[j].time) && forall m :: m in q ==> m.time <= now
  }

  predicate Recent(m: Message, now: Uint32) {
    m.time + PURGE_SECONDS >= now
  }

  /** The recent ones of a sequence, wherever they stand. */
  function RecentOnly(q: seq<Message>, now: Uint32): seq<Message> {
    if q == [] then [] else IfRecent(q[0], now) + RecentOnly(q[1..], now)
  }

  function IfRecent(m: Message, now: Uint32): seq<Message> {
    if Recent(m, now) then [m] else []
  }

  /** While the clock does not go back, purging from the front drops exactly the old messages. */
  lemma {:induction false} PurgeDropsExactlyOld(q: seq<Message>, now: Uint32)
    requires InOrder(q, now)
    ensures Purge(q, now) == RecentOnly(q, now)
  {
    if q != [] {
      assert q[0] in q && Age(q[0], now) == now - q[0].time;
      assert forall m :: m in q[1..] ==> m in q;
      if Recent(q[0], now) {
        forall m | m in q
          ensures Recent(m, now)
        {
          var j :| 0 <= j < |q| && q[j] == m;
          assert q[0].time <= q[j].time;
        }
        AllRecent(q, now);
      } else {
        PurgeDropsExactlyOld(q[1..], now);
      }
    }
  }

  lemma {:induction false} AllRecent(q: seq<Message>, now: Uint32)
    requires forall m :: m in q ==> Recent(m, now)
    ensures RecentOnly(q, now) == q
  {
    if q != [] {
      assert q[0] in q && forall m :: m in q[1..] ==> m in q;
      AllRecent(q[1..], now);
    }
  }

  /** One add: when the clock was read to purge, and the message as stamped. */
  datatype Sent = Sent(purged: Uint32, message: Message)

  function Messages(h: seq<Sent>): (ms: seq<Message>)
    ensures |ms| == |h| && forall k :: 0 <= k < |h| ==> ms[k] == h[k].message
  {
    seq(|h|, k requires 0 <= k < |h| => h[k].message)
  }

  /** The queue after a history of adds, each acting as Ring.Add says. */
  function Adds(h: seq<Sent>): (r: seq<Message>)
    ensures |r| < MAX_SENT
  {
    if h == [] then []
    else
      var last := h[|h| - 1];
      var q := Purge(Adds(h[..|h| - 1]), last.purged);
      if |q| < MAX_SENT - 1 then q + [last.message] else []
  }

  /** The clock readings of a history never go back. */
  predicate Forward(h: seq<Sent>) {
    && (forall k :: 0 <= k < |h| ==> h[k].purged <= h[k].message.time)
    && (forall j, k :: 0 <= j < k < |h| ==> h[j].message.time <= h[k].purged)
  }

  /** Never a hundred messages within the purge time. */
  ghost predicate Sparse(h: seq<Sent>) {
    forall n :: 0 < n <= |h| ==> |RecentOnly(Messages(h[..n]), h[n - 1].purged)| < MAX_SENT
  }

  lemma {:induction false} RecentConcat(a: seq<Message>, b: seq<Message>, now: Uint32)
    ensures RecentOnly(a + b, now) == RecentOnly(a, now) + RecentOnly(b, now)
  {
    hide IfRecent;
    if a == [] {
      assert a + b == b;
    } else {
      assert (a + b)[1..] == a[1..] + b && (a + b)[0] == a[0];
      RecentConcat(a[1..], b, now);
      var first := IfRecent(a[0], now);
      assert first + (RecentOnly(a[1..], now) + RecentOnly(b, now)) == first + RecentOnly(a[1..], now) + RecentOnly(b, now);
    }
  }

  lemma {:induction false} RecentTwice(q: seq<Message>, t: Uint32, now: Uint32)
    requires t <= now
    ensures RecentOnly(RecentOnly(q, t), now) == RecentOnly(q, now)
  {
    if q != [] {
      var first := IfRecent(q[0], t);
      RecentConcat(first, RecentOnly(q[1..], t), now);
      RecentTwice(q[1..], t, now);
      if Recent(q[0], t) {
        assert first[1..] == [];
      }
    }
  }

  lemma {:induction false} KeptWereThere(q: seq<Message>, cut: Uint32)
    ensures forall m :: m in RecentOnly(q, cut) ==> m in q
  {
    if q != [] {
      KeptWereThere(q[1..], cut);
    }
  }

  lemma OrderOfTail(q: seq<Message>, now: Uint32)
    requires InOrder(q, now) && q != []
    ensures InOrder(q[1..], now) && q[0].time <= now && forall m :: m in q[1..] ==> q[0].time <= m.time
  {
    assert q[0] in q && forall m :: m in q[1..] ==> m in q;
  }

  lemma OrderFromFront(m: Message, r: seq<Message>, now: Uint32)
    requires InOrder(r, now) && m.time <= now && forall x :: x in r ==> m.time <= x.time
    ensures InOrder([m] + r, now)
  {
  }

  lemma {:induction false} OrderKept(q: seq<Message>, now: Uint32, cut: Uint32)
    requires InOrder(q, now)
    ensures InOrder(RecentOnly(q, cut), now)
  {
    hide InOrder;
    if q == [] {
      NothingInOrder(now);
    } else {
      OrderOfTail(q, now);
      OrderKept(q[1..], now, cut);
      KeptWereThere(q[1..], cut);
      var r := RecentOnly(q[1..], cut);
      OrderFromFront(q[0], r, now);
      assert [] + r == r;
    }
  }

  lemma NothingInOrder(now: Uint32)
    ensures InOrder([], now)
  {
  }

  lemma SparsePrefix(h: seq<Sent>, n: nat)
    requires Sparse(h) && n <= |h|
    ensures Sparse(h[..n])
  {
    forall i | 0 < i <= n
      ensures |RecentOnly(Messages(h[..n][..i]), h[..n][i - 1].purged)| < MAX_SENT
    {
      assert h[..n][..i] == h[..i];
    }
  }

  lemma ForwardInOrder(h: seq<Sent>, now: Uint32)
    requires Forward(h) && (h == [] || h[|h| - 1].message.time <= now)
    ensures InOrder(Messages(h), now)
  {
  }

  /** Over a whole history of adds by a clock that does not go back, with never a hundred messages
      within five seconds, the ring holds exactly the messages that were not older than five seconds
      when the last add purged. */
  lemma {:induction false} RingRemembersRecent(h: seq<Sent>)
    requires h != [] && Forward(h) && Sparse(h)
    ensures Adds(h) == RecentOnly(Messages(h), h[|h| - 1].purged)
    decreases |h|
  {
    var k := |h| - 1;
    var last, init := h[k], h[..k];
    assert Messages(h) == Messages(init) + [last.message];
    RecentConcat(Messages(init), [last.message], last.purged);
    assert [last.message][1..] == [];
    assert h[..k + 1] == h;
    assert |RecentOnly(Messages(h), last.purged)| < MAX_SENT;
    SparsePrefix(h, k);
    PurgeOfAdds(h);
  }

  lemma NothingSent(now: Uint32)
    ensures Adds([]) == [] && Purge([], now) == [] && RecentOnly([], now) == []
  {
  }

  /** What the purge of the last add kept stays in order for any later clock. */
  lemma KeptInOrder(h: seq<Sent>, now: Uint32)
    requires h != [] && Forward(h) && h[|h| - 1].message.time <= now
    ensures InOrder(RecentOnly(Messages(h), h[|h| - 1].purged), now)
  {
    ForwardInOrder(h, now);
    OrderKept(Messages(h), now, h[|h| - 1].purged);
  }

  lemma {:induction false} PurgeOfAdds(h: seq<Sent>)
    requires h != [] && Forward(h) && Sparse(h[..|h| - 1])
    ensures Purge(Adds(h[..|h| - 1]), h[|h| - 1].purged) == RecentOnly(Messages(h[..|h| - 1]), h[|h| - 1].purged)
    decreases |h|, 0
  {
    hide Sparse, Adds, Purge, RecentOnly;
    var k := |h| - 1;
    var init, now := h[..k], h[k].purged;
    if k > 0 {
      var t := init[k - 1].purged;
      RingRemembersRecent(init);
      var ms := Messages(init);
      ForwardInOrder(init, init[k - 1].message.time);
      KeptInOrder(init, now);
      PurgeDropsExactlyOld(RecentOnly(ms, t), now);
      RecentTwice(ms, t, now);
    } else {
      assert Messages(init) == [];
      NothingSent(now);
    }
  }

  /** The ring holds the recent messages after every add if and only if there are never a hundred of
      them. */
  lemma RingRemembersExactly(h: seq<Sent>)
    requires Forward(h)
    ensures (forall n :: 0 < n <= |h| ==> Adds(h[..n]) == RecentOnly(Messages(h[..n]), h[n - 1].purged)) <==> Sparse(h)
  {
    hide Adds, RecentOnly;
    if Sparse(h) {
      forall n | 0 < n <= |h|
        ensures Adds(h[..n]) == RecentOnly(Messages(h[..n]), h[n - 1].purged)
      {
        SparsePrefix(h, n);
        RingRemembersRecent(h[..n]);
      }
    } else {
      var n :| 0 < n <= |h| && |RecentOnly(Messages(h[..n]), h[n - 1].purged)| >= MAX_SENT;
      assert Adds(h[..n]) != RecentOnly(Messages(h[..n]), h[n - 1].purged);
    }
  }

  /** The first time there are a hundred, the add forgets them all; and only then is the ring empty
      after an add. */
  lemma HundredthEmpties(h: seq<Sent>)
    requires h != [] && Forward(h) && Sparse(h[..|h| - 1])
    ensures Adds(h) == [] <==> !Sparse(h)
  {
    hide Purge, RecentOnly, Sparse, Messages;
    PurgeOfAdds(h);
    SparseOnward(h);
  }

  lemma SparseOnward(h: seq<Sent>)
    requires h != [] && Forward(h) && Sparse(h[..|h| - 1])
    ensures Sparse(h) <==> |RecentOnly(Messages(h[..|h| - 1]), h[|h| - 1].purged)| < MAX_SENT - 1
  {
    hide RecentOnly;
    var k := |h| - 1;
    var last, init := h[k], h[..k];
    assert Messages(h) == Messages(init) + [last.message];
    LastIsRecent(Messages(init), last);
    assert h[..|h|] == h;
    if |RecentOnly(Messages(h), last.purged)| < MAX_SENT {
      forall n | 0 < n <= |h|
        ensures |RecentOnly(Messages(h[..n]), h[n - 1].purged)| < MAX_SENT
      {
        if n <= k {
          assert h[..n] == init[..n] && h[n - 1] == init[n - 1];
        }
      }
    }
  }

  lemma LastIsRecent(ms: seq<Message>, last: Sent)
    requires last.purged <= last.message.time
    ensures |RecentOnly(ms + [last.message], last.purged)| == |RecentOnly(ms, last.purged)| + 1
  {
    RecentConcat(ms, [last.message], last.purged);
    assert [last.message][1..] == [];
  }
}
