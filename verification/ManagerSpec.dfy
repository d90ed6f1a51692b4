/**
 What one event does to a client, as functions on values.  An event updates the session and the
 heartbeat counters, attempts some frames in order, and fires callbacks.

 The network may refuse a frame.  Every event stops at its first refused frame, so the number of
 frames the network takes during the event, `budget`, covers every possible outcome.
 */
module ManagerSpec {
  import opened MqttTypes
  import opened SessionSpec

  type uint32 = x: int | 0 <= x < 0x1_0000_0000

  datatype Event =
    | SendConnect(connect: ConnectArgs)
    | SendSubscribe(subscribe: SubscribeArgs)
    | SendUnsubscribe(unsubscribe: UnsubscribeArgs)
    | SendPublish(publish: PublishArgs)
    | RecvPublish(publish: PublishArgs)
    | RecvSuback(id: PacketId)
    | RecvUnsuback(id: PacketId)
    | RecvPuback(id: PacketId)
    | RecvPubrec(id: PacketId)
    | RecvPubrel(id: PacketId)
    | RecvPubcomp(id: PacketId)
    | RecvPingresp
    | Tick

  /** A call of the application's callback.  `PublishedQos0` carries no message id. */
  datatype Notice =
    | PublishedQos0
    | Published(id: PacketId)
    | MessageReceived(publish: PublishArgs)
    | Subscribed(id: PacketId)
    | Unsubscribed(id: PacketId)
    | Unknown(id: PacketId)
    | Disconnected

  datatype Heartbeat = Heartbeat(resetValue: uint32, stepValue: uint32, sendCounter: uint32, recvCounter: uint32)

  function SessionAfter(used: seq<Packet>, capacity: nat, e: Event): seq<Packet> {
    match e
    case SendSubscribe(a) => Added(used, capacity, Subscribe(a))
    case SendUnsubscribe(a) => Added(used, capacity, Unsubscribe(a))
    case SendPublish(a) =>
      var stored := Added(used, capacity, Publish(a));
      if a.qos == AT_MOST_ONCE then Without(stored, a.packetId) else stored
    case RecvPublish(a) =>
      if a.qos == EXACTLY_ONCE && !Live(used, a.packetId) then Added(used, capacity, Pubrec(a.packetId)) else used
    case RecvPubrec(id) =>
      var rest := Without(used, id);
      if Live(rest, id) then rest else Added(rest, capacity, Pubrel(id))
    case RecvSuback(id) => Without(used, id)
    case RecvUnsuback(id) => Without(used, id)
    case RecvPuback(id) => Without(used, id)
    case RecvPubrel(id) => Without(used, id)
    case RecvPubcomp(id) => Without(used, id)
    case _ => used
  }

  /** Ticking a counter saturates at zero. */
  function Stepped(counter: uint32, step: uint32): uint32 {
    if counter >= step then counter - step else 0
  }

  predicate TimesOut(h: Heartbeat) {
    Stepped(h.recvCounter, h.stepValue) == 0
  }

  predicate Pings(h: Heartbeat) {
    !TimesOut(h) && Stepped(h.sendCounter, h.stepValue) == 0
  }

  predicate IsReceive(e: Event) {
    e.RecvPublish? || e.RecvSuback? || e.RecvUnsuback? || e.RecvPuback? || e.RecvPubrec? || e.RecvPubrel?
    || e.RecvPubcomp? || e.RecvPingresp?
  }

  /** Events whose own frame restarts the send counter; QoS 0 publishes and resends do not. */
  predicate IsCountedSend(e: Event) {
    e.SendSubscribe? || e.SendUnsubscribe? || (e.SendPublish? && e.publish.qos != AT_MOST_ONCE)
    || (e.RecvPublish? && (e.publish.qos == AT_LEAST_ONCE || e.publish.qos == EXACTLY_ONCE))
    || e.RecvPubrec? || e.RecvPubrel?
  }

  function HeartbeatAfter(h: Heartbeat, e: Event): Heartbeat {
    if e.SendConnect? then
      if e.connect.keepAlive == 0 then h
      else Heartbeat(e.connect.keepAlive, 1, e.connect.keepAlive, 2 * e.connect.keepAlive)
    else if e.Tick? then
      var recv := Stepped(h.recvCounter, h.stepValue);
      if TimesOut(h) then h.(recvCounter := recv)
      else h.(recvCounter := recv, sendCounter := if Pings(h) then h.resetValue else Stepped(h.sendCounter, h.stepValue))
    else
      h.(recvCounter := if IsReceive(e) then (2 * h.resetValue) % 0x1_0000_0000 else h.recvCounter,
         sendCounter := if IsCountedSend(e) then h.resetValue else h.sendCounter)
  }

  /** The frames the event tries to send, in order. */
  function Attempts(used: seq<Packet>, h: Heartbeat, e: Event): seq<Packet> {
    match e
    case SendConnect(a) => [Connect(Normalised(a))]
    case SendSubscribe(a) => [Subscribe(a)]
    case SendUnsubscribe(a) => [Unsubscribe(a)]
    case SendPublish(a) => [Publish(a)]
    case RecvPublish(a) =>
      if a.qos == AT_LEAST_ONCE then [Puback(a.packetId)]
      else if a.qos == EXACTLY_ONCE then [Pubrec(a.packetId)]
      else []
    case RecvPubrec(id) => [Pubrel(id)]
    case RecvPubrel(id) => [Pubcomp(id)]
    case RecvPingresp => used
    case Tick => if Pings(h) then [Pingreq] else []
    case _ => []
  }

  /** The callback is assumed registered. */
  function Notices(used: seq<Packet>, h: Heartbeat, e: Event, budget: nat): seq<Notice> {
    match e
    case SendPublish(a) => if a.qos == AT_MOST_ONCE && budget > 0 then [PublishedQos0] else []
    case RecvPublish(a) =>
      if a.qos == EXACTLY_ONCE && Live(used, a.packetId) then [] else [MessageReceived(a)]
    case RecvSuback(id) => [Subscribed(id)]
    case RecvUnsuback(id) => [Unsubscribed(id)]
    case RecvPuback(id) => [Published(id)]
    case RecvPubcomp(id) => [Published(id)]
    case RecvPubrec(id) => [Unknown(id)]
    case RecvPubrel(id) => [Unknown(id)]
    case Tick => if TimesOut(h) then [Disconnected] else []
    case _ => []
  }

  ghost predicate AllTracked(used: seq<Packet>) {
    forall i :: 0 <= i < |used| ==> Tracked(TypeOf(used[i]))
  }

  lemma WithoutStaysTracked(used: seq<Packet>, id: PacketId)
    requires AllTracked(used)
    ensures AllTracked(Without(used, id))
  {
    hide Tracked;
    hide TypeOf;
  }

  lemma AddedStaysTracked(used: seq<Packet>, capacity: nat, p: Packet)
    requires AllTracked(used)
    ensures AllTracked(Added(used, capacity, p))
  {
    hide Tracked;
    hide TypeOf;
  }

  lemma StaysTracked(used: seq<Packet>, capacity: nat, e: Event)
    requires AllTracked(used)
    ensures AllTracked(SessionAfter(used, capacity, e))
  {
    hide AllTracked;
    hide Added;
    hide Without;
    match e
    case SendSubscribe(a) => AddedStaysTracked(used, capacity, Subscribe(a));
    case SendUnsubscribe(a) => AddedStaysTracked(used, capacity, Unsubscribe(a));
    case SendPublish(a) =>
      AddedStaysTracked(used, capacity, Publish(a));
      WithoutStaysTracked(Added(used, capacity, Publish(a)), a.packetId);
    case RecvPublish(a) => AddedStaysTracked(used, capacity, Pubrec(a.packetId));
    case RecvPubrec(id) =>
      WithoutStaysTracked(used, id);
      AddedStaysTracked(Without(used, id), capacity, Pubrel(id));
    case RecvSuback(id) => WithoutStaysTracked(used, id);
    case RecvUnsuback(id) => WithoutStaysTracked(used, id);
    case RecvPuback(id) => WithoutStaysTracked(used, id);
    case RecvPubrel(id) => WithoutStaysTracked(used, id);
    case RecvPubcomp(id) => WithoutStaysTracked(used, id);
    case _ =>
  }
}
