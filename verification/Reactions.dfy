/**
 From bytes to behaviour: how the client reacts to each frame a broker can send and to each request of
 the application, said about the bytes, the frames, the session items and the callbacks themselves.
 */
module Reactions {
  import opened MqttTypes
  import opened Bytes
  import opened Options
  import opened SessionSpec
  import opened ManagerSpec
  import opened Receive
  import opened FrameLaws
  import opened PublishFrame
  import opened ConnectFrame

  // ---------- What is read ----------

  /** The packet type of section 2.2.1. */
  function TypeNumber(s: seq<Byte>): int
    requires s != []
  {
    s[0] as int / 16
  }

  lemma TypeIsRead(s: seq<Byte>)
    requires s != []
    ensures CodeAt(s) as int == TypeNumber(s)
  {
    assert (s[0] & 0xF0) >> 4 == s[0] / 16;
    NibbleQuotient(s[0]);
  }

  lemma NibbleQuotient(b: Byte)
    ensures (b / 16) as int == b as int / 16
  {
  }

  /** The packet id behind type and length, high byte first. */
  function IdAt(s: seq<Byte>): PacketId
    requires |s| >= 4
  {
    s[2] as int * 256 + s[3] as int
  }

  lemma IdIsRead(s: seq<Byte>)
    requires |s| >= 4
    ensures ShortAt(s[2..]) == IdAt(s)
  {
  }

  /** What a frame other than PUBLISH means, by its packet type, if all of it was told. */
  function SmallFrame(s: seq<Byte>, len: nat): Option<(Incoming, nat)>
    requires 1 <= len <= |s|
  {
    var t := TypeNumber(s);
    if t == 2 && len >= 4 then Some((ConnackIn(s[2] as int / 2 % 2 == 1, s[3]), 4))
    else if t == 4 && len >= 4 then Some((PubackIn(IdAt(s)), 4))
    else if t == 5 && len >= 4 then Some((PubrecIn(IdAt(s)), 4))
    else if t == 6 && len >= 4 then Some((PubrelIn(IdAt(s)), 4))
    else if t == 7 && len >= 4 then Some((PubcompIn(IdAt(s)), 4))
    else if t == 9 && len >= 5 then Some((SubackIn(IdAt(s), s[4]), 5))
    else if t == 11 && len >= 4 then Some((UnsubackIn(IdAt(s)), 4))
    else if t == 13 && len >= 2 then Some((PingrespIn, 2))
    else None
  }

  lemma FlagIsRead(b: Byte)
    ensures GetBit(b, 1) <==> b as int / 2 % 2 == 1
  {
    assert b & (1 << 1) != 0 <==> b / 2 % 2 == 1;
    assert (b / 2) as int == b as int / 2;
    assert (b / 2 % 2) as int == (b / 2) as int % 2;
  }

  /** Every frame but PUBLISH is read by its packet type alone, from the told bytes alone. */
  lemma SmallFramesAreRead(s: seq<Byte>, len: nat, was: PacketId)
    requires 1 <= len <= |s| && len < 0x1_0000 && TypeNumber(s) != 3
    ensures Readable(s, len) && Receipt(s, len, was) == SmallFrame(s, len)
  {
    TypeIsRead(s);
    var code := CodeAt(s);
    hide CodeAt;
    hide TypeNumber;
    hide ShortAt;
    hide IdAt;
    hide GetBit;
    assert code as int == 3 <==> code == 3;
    if |s| >= 4 {
      IdIsRead(s);
      FlagIsRead(s[2]);
    }
  }

  /** Told any proper part of any frame, the receiver refuses it; only a PUBLISH length field can lead it beyond the told bytes. */
  lemma AnyTruncationIsDetected(w: WireFrame, s: seq<Byte>, n: nat, was: PacketId)
    requires w.Valid() && |w.Encode()| < 0x1_0000
    requires 1 <= n < |w.Encode()| && n <= |s| && s[..n] == w.Encode()[..n]
    ensures Readable(s, n) <==>
      !w.MessageFrame? || n < |s| || !SaysOnlyMore(LengthBytes(PublishSize(w.publish)), n - 1)
    ensures Readable(s, n) ==> Receipt(s, n, was) == None
  {
    hide ShortBytes;
    hide PublishBytes;
    hide LengthBytes;
    hide SaysOnlyMore;
    hide FirstByte;
    hide Receipt;
    hide Readable;
    if w.MessageFrame? {
      TruncationIsDetected(w.publish, s, n, was);
    } else {
      assert s[0] == s[..n][0] == w.Encode()[0];
      FirstByteType(w);
      SmallFramesAreRead(s, n, was);
    }
  }

  lemma FirstByteType(w: WireFrame)
    requires w.Valid() && !w.MessageFrame?
    ensures TypeNumber(w.Encode())
      == if w.AckFrame? then w.code as int else if w.SubackFrame? then 9 else if w.ConnackFrame? then 2 else 13
  {
    hide ShortBytes;
    var code: Byte := if w.AckFrame? then w.code else if w.SubackFrame? then 9 else if w.ConnackFrame? then 2 else 13;
    NibblePair(code, w.flags);
    assert w.Encode()[0] == FirstByte(code, w.flags);
  }

  lemma NibblePair(code: Byte, flags: Byte)
    requires code < 16 && flags < 16
    ensures FirstByte(code, flags) as int == 16 * code as int + flags as int
  {
    assert FirstByte(code, flags) == 16 * code + flags;
    assert (16 * code + flags) as int == 16 * code as int + flags as int;
  }

  /** The acknowledgements a client writes, byte by byte: type and 2 in the first byte, length 2, packet id high byte first. */
  lemma AckLayout(p: Packet)
    requires p.Puback? || p.Pubrec? || p.Pubrel? || p.Pubcomp?
    ensures var s := WireBytes(p);
      && |s| == 4 && s[1] == 2 && IdAt(s) == IdOf(p)
      && s[0] as int == 2 + 16 * if p.Puback? then 4 else if p.Pubrec? then 5 else if p.Pubrel? then 6 else 7
  {
    ShortIsBigEndian(IdOf(p));
    hide ShortBytes;
    var code: Byte := if p.Puback? then 4 else if p.Pubrec? then 5 else if p.Pubrel? then 6 else 7;
    NibblePair(code, 2);
    hide FirstByte;
    assert WireBytes(p) == [FirstByte(code, 2), 2] + ShortBytes(IdOf(p));
  }

  // ---------- Frames from the broker ----------

  /** `after` is `used` without the oldest item that has the id, if any has. */
  ghost predicate OldestGone(used: seq<Packet>, after: seq<Packet>, id: PacketId) {
    || ((forall i :: 0 <= i < |used| ==> IdOf(used[i]) != id) && after == used)
    || (exists k :: 0 <= k < |used| && IdOf(used[k]) == id && (forall i :: 0 <= i < k ==> IdOf(used[i]) != id)
          && after == used[..k] + used[k + 1..])
  }

  lemma WithoutIsOldestGone(used: seq<Packet>, id: PacketId)
    ensures OldestGone(used, Without(used, id), id)
  {
    var k := FirstWith(used, id);
    if k < |used| {
      assert IdOf(used[k]) == id;
    }
  }

  predicate HasItem(used: seq<Packet>, id: PacketId) {
    exists i :: 0 <= i < |used| && IdOf(used[i]) == id
  }

  /** The event of an acknowledgement, by the packet type that carries it. */
  function AckEvent(t: int, id: PacketId): Event
    requires t in {4, 5, 6, 7, 9, 11}
  {
    if t == 4 then RecvPuback(id)
    else if t == 5 then RecvPubrec(id)
    else if t == 6 then RecvPubrel(id)
    else if t == 7 then RecvPubcomp(id)
    else if t == 9 then RecvSuback(id)
    else RecvUnsuback(id)
  }

  /** A told acknowledgement raises the event of its type with the id in its bytes. */
  lemma AcknowledgementIsRaised(s: seq<Byte>, len: nat, was: PacketId)
    requires 4 <= len <= |s| && len < 0x1_0000
    requires TypeNumber(s) in {4, 5, 6, 7, 11} || (TypeNumber(s) == 9 && len >= 5)
    ensures Readable(s, len) && Receipt(s, len, was).Some?
    ensures EventOf(Receipt(s, len, was).value.0) == Some(AckEvent(TypeNumber(s), IdAt(s)))
  {
    SmallFramesAreRead(s, len, was);
    hide Receipt;
    hide Readable;
    hide TypeNumber;
    hide IdAt;
  }

  /**
   Every acknowledgement of a broker: which callback it makes, what it is answered with, and that it
   drops the oldest item of its id, a PUBREC putting a PUBREL in its place.
   */
  lemma AcknowledgementReaction(t: int, id: PacketId, used: seq<Packet>, capacity: nat, h: Heartbeat, budget: nat)
    requires t in {4, 5, 6, 7, 9, 11}
    ensures Notices(used, h, AckEvent(t, id), budget)
      == [if t == 9 then Subscribed(id) else if t == 11 then Unsubscribed(id) else if t == 5 || t == 6 then Unknown(id) else Published(id)]
    ensures Attempts(used, h, AckEvent(t, id)) == if t == 5 then [Pubrel(id)] else if t == 6 then [Pubcomp(id)] else []
    ensures exists rest ::
      && OldestGone(used, rest, id)
      && SessionAfter(used, capacity, AckEvent(t, id))
        == if t != 5 || HasItem(rest, id) || |rest| >= capacity then rest else rest + [Pubrel(id)]
  {
    var rest := Without(used, id);
    WithoutIsOldestGone(used, id);
    assert HasItem(rest, id) <==> Live(rest, id);
    hide OldestGone;
    hide Without;
    hide HasItem;
    hide Live;
    hide TimesOut;
    hide Pings;
    hide Normalised;
  }

  /** A PUBLISH: answered by its QoS, recorded and delivered at QoS 2 only when no item has its id, and otherwise delivered. */
  lemma PublishReaction(a: PublishArgs, used: seq<Packet>, capacity: nat, h: Heartbeat, budget: nat)
    ensures EventOf(PublishIn(a)) == Some(RecvPublish(a))
    ensures Attempts(used, h, RecvPublish(a))
      == if a.qos == 1 then [Puback(a.packetId)] else if a.qos == 2 then [Pubrec(a.packetId)] else []
    ensures Notices(used, h, RecvPublish(a), budget)
      == if a.qos == 2 && HasItem(used, a.packetId) then [] else [MessageReceived(a)]
    ensures SessionAfter(used, capacity, RecvPublish(a))
      == if a.qos == 2 && !HasItem(used, a.packetId) && |used| < capacity then used + [Pubrec(a.packetId)] else used
  {
  }

  /** PINGRESP resends all items in order and changes no item; CONNACK causes no event. */
  lemma PingrespReaction(used: seq<Packet>, capacity: nat, h: Heartbeat, budget: nat, present: bool, returnCode: Byte)
    ensures EventOf(PingrespIn) == Some(RecvPingresp) && EventOf(ConnackIn(present, returnCode)) == None
    ensures Attempts(used, h, RecvPingresp) == used && Notices(used, h, RecvPingresp, budget) == []
    ensures SessionAfter(used, capacity, RecvPingresp) == used
  {
  }

  // ---------- Requests of the application ----------

  /** A SUBSCRIBE or UNSUBSCRIBE is sent as it was given and stored behind the other items if there is room. */
  lemma SubscribeReaction(a: SubscribeArgs, b: UnsubscribeArgs, used: seq<Packet>, capacity: nat, h: Heartbeat, budget: nat)
    ensures Attempts(used, h, SendSubscribe(a)) == [Subscribe(a)] && Attempts(used, h, SendUnsubscribe(b)) == [Unsubscribe(b)]
    ensures Notices(used, h, SendSubscribe(a), budget) == [] == Notices(used, h, SendUnsubscribe(b), budget)
    ensures SessionAfter(used, capacity, SendSubscribe(a)) == if |used| < capacity then used + [Subscribe(a)] else used
    ensures SessionAfter(used, capacity, SendUnsubscribe(b)) == if |used| < capacity then used + [Unsubscribe(b)] else used
  {
  }

  /**
   A PUBLISH is sent as it was given.  Above QoS 0 it is stored behind the other items if there is
   room; at QoS 0 it is reported as published exactly if the network took it.
   */
  lemma SendPublishReaction(a: PublishArgs, used: seq<Packet>, capacity: nat, h: Heartbeat, budget: nat)
    ensures Attempts(used, h, SendPublish(a)) == [Publish(a)]
    ensures a.qos != 0 ==>
      && SessionAfter(used, capacity, SendPublish(a)) == (if |used| < capacity then used + [Publish(a)] else used)
      && Notices(used, h, SendPublish(a), budget) == []
    ensures a.qos == 0 ==>
      && OldestGone(if |used| < capacity then used + [Publish(a)] else used, SessionAfter(used, capacity, SendPublish(a)), a.packetId)
      && Notices(used, h, SendPublish(a), budget)
        == if Accepted(Attempts(used, h, SendPublish(a)), budget) == [Publish(a)] then [PublishedQos0] else []
  {
    WithoutIsOldestGone(Added(used, capacity, Publish(a)), a.packetId);
    hide OldestGone;
    hide Without;
  }

  /**
   The CONNECT that is sent lets a server that reads by section 3.1 learn what the application gave.
   The server refuses it exactly if it announces a will of QoS 3.
   */
  lemma ConnectReachesServer(given: ConnectArgs, used: seq<Packet>, capacity: nat, h: Heartbeat, budget: nat)
    ensures |Attempts(used, h, SendConnect(given))| == 1 && Attempts(used, h, SendConnect(given))[0].Connect?
    ensures var got := ParseConnect(ConnectBytes(Attempts(used, h, SendConnect(given))[0].connect));
      && (got == None <==> given.willFlag && given.willQos & 3 == 3)
      && ((given.willFlag ==> given.willQos <= 2) ==> got.Some? && Conveys(got.value, given))
    ensures SessionAfter(used, capacity, SendConnect(given)) == used && Notices(used, h, SendConnect(given), budget) == []
  {
    ConnectRoundTrip(given);
    hide ParseConnect;
    hide ConnectBytes;
    if given.willFlag ==> given.willQos <= 2 {
      NormalisedConveys(given);
    }
    hide Conveys;
    hide Normalised;
    hide Carried;
  }

  /** Whatever an event puts into the session it also tries to send. */
  lemma StoredIsSent(used: seq<Packet>, capacity: nat, h: Heartbeat, e: Event, p: Packet)
    requires p in SessionAfter(used, capacity, e) && p !in used
    ensures p in Attempts(used, h, e)
  {
    match e
    case SendPublish(a) => KeepsOnlyItems(Added(used, capacity, Publish(a)), a.packetId, p);
    case RecvPubrec(i) => KeepsOnlyItems(used, i, p);
    case RecvSuback(i) => KeepsOnlyItems(used, i, p);
    case RecvUnsuback(i) => KeepsOnlyItems(used, i, p);
    case RecvPuback(i) => KeepsOnlyItems(used, i, p);
    case RecvPubrel(i) => KeepsOnlyItems(used, i, p);
    case RecvPubcomp(i) => KeepsOnlyItems(used, i, p);
    case _ =>
  }

  lemma KeepsOnlyItems(used: seq<Packet>, id: PacketId, p: Packet)
    ensures p in Without(used, id) ==> p in used
  {
    hide Live;
  }

  // ---------- The heartbeat ----------

  /** Every event the receiver raises restarts the receive counter at twice the interval; what the application asks for leaves it, but for CONNECT. */
  lemma FramesRestartReceiving(got: Incoming, h: Heartbeat, e: Event)
    ensures EventOf(got).Some? ==> HeartbeatAfter(h, EventOf(got).value).recvCounter == 2 * h.resetValue % 0x1_0000_0000
    ensures e.SendSubscribe? || e.SendUnsubscribe? || e.SendPublish? ==> HeartbeatAfter(h, e).recvCounter == h.recvCounter
  {
  }

  /** Events of the receiver are all but the requests of the application and the tick. */
  lemma ReceiverRaises(e: Event)
    ensures !(e.SendConnect? || e.SendSubscribe? || e.SendUnsubscribe? || e.SendPublish? || e.Tick?) <==>
      exists got :: EventOf(got) == Some(e)
  {
    match e
    case RecvPublish(a) => assert EventOf(PublishIn(a)) == Some(e);
    case RecvSuback(i) => assert EventOf(SubackIn(i, 0)) == Some(e);
    case RecvUnsuback(i) => assert EventOf(UnsubackIn(i)) == Some(e);
    case RecvPuback(i) => assert EventOf(PubackIn(i)) == Some(e);
    case RecvPubrec(i) => assert EventOf(PubrecIn(i)) == Some(e);
    case RecvPubrel(i) => assert EventOf(PubrelIn(i)) == Some(e);
    case RecvPubcomp(i) => assert EventOf(PubcompIn(i)) == Some(e);
    case RecvPingresp => assert EventOf(PingrespIn) == Some(e);
    case _ =>
  }

  /** Outside ticks and CONNECT, the send counter is restarted exactly by an event that sends a frame of its own other than a QoS 0 PUBLISH. */
  lemma OwnFramesRestartSending(used: seq<Packet>, h: Heartbeat, e: Event)
    requires !e.SendConnect? && !e.Tick?
    ensures var next, frames := HeartbeatAfter(h, e), Attempts(used, h, e);
      && next.resetValue == h.resetValue && next.stepValue == h.stepValue
      && next.sendCounter
        == if !e.RecvPingresp? && exists p :: p in frames && !(p.Publish? && p.publish.qos == 0) then h.resetValue else h.sendCounter
  {
    var frames := Attempts(used, h, e);
    assert frames != [] ==> frames[0] in frames;
    hide Normalised;
  }

  /** CONNECT starts both counters if it has an interval, and leaves them alone otherwise. */
  lemma ConnectStartsCounters(a: ConnectArgs, h: Heartbeat)
    ensures HeartbeatAfter(h, SendConnect(a))
      == if a.keepAlive == 0 then h else Heartbeat(a.keepAlive, 1, a.keepAlive, 2 * a.keepAlive)
  {
  }

  /** A tick takes one step off the receive counter.  At zero the connection is given up; otherwise the send counter takes a step, and at zero a PINGREQ goes out. */
  lemma TickReaction(used: seq<Packet>, capacity: nat, h: Heartbeat, budget: nat)
    ensures SessionAfter(used, capacity, Tick) == used
    ensures var next, recv := HeartbeatAfter(h, Tick), if h.recvCounter <= h.stepValue then 0 else h.recvCounter - h.stepValue;
      && next.recvCounter == recv && next.resetValue == h.resetValue && next.stepValue == h.stepValue
      && (recv == 0 ==>
            Notices(used, h, Tick, budget) == [Disconnected] && Attempts(used, h, Tick) == [] && next.sendCounter == h.sendCounter)
      && (recv > 0 ==> Notices(used, h, Tick, budget) == [])
      && (recv > 0 && h.sendCounter <= h.stepValue ==> Attempts(used, h, Tick) == [Pingreq] && next.sendCounter == h.resetValue)
      && (recv > 0 && h.sendCounter > h.stepValue ==>
            Attempts(used, h, Tick) == [] && next.sendCounter == h.sendCounter - h.stepValue)
  {
  }
}
