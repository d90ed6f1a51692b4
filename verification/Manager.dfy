/** The connection's event machine: mqtt_manager.c and the backend callbacks of mqtt_connection.c. */
module Manager {
  import opened MqttTypes
  import opened SessionSpec
  import opened ManagerSpec
  import opened LinkedList
  import opened Session

  class Connection {
    const session: Session
    var heartbeat: Heartbeat
    var wire: seq<Packet>     // frames the network took
    var notices: seq<Notice>  // callbacks fired

    ghost predicate Ready()
      reads session.Repr
    {
      session in session.Repr && this !in session.Repr && session.Valid()
    }

    ghost predicate Valid()
      reads session.Repr
    {
      Ready() && AllTracked(session.Contents)
    }

    constructor (session: Session, heartbeat: Heartbeat)
      requires session.Valid() && session.used == []
      ensures Valid() && this.session == session && this.heartbeat == heartbeat
      ensures wire == [] && notices == []
    {
      this.session, this.heartbeat := session, heartbeat;
      wire, notices := [], [];
    }

    method SendFrame(p: Packet, budget: nat) returns (ok: bool)
      requires Ready()
      modifies this`wire
      ensures Ready()
      ensures ok <==> budget > 0
      ensures wire == old(wire) + Accepted([p], budget)
    {
      ok := budget > 0;
      if ok {
        wire := wire + [p];
      }
    }

    method Store(p: Packet)
      requires Ready()
      modifies session.Repr
      ensures Ready() && session.Contents == Added(old(session.Contents), |session.items|, p)
      ensures |old(session.Contents)| == |old(session.used)| && |old(session.used)| + |old(session.free)| == |session.items|
      ensures Tracked(TypeOf(p)) ==> ListsAfterAdd(old(session.used), old(session.free), session.used, session.free)
    {
      var _ := session.AddItem(p);
    }

    method Forget(t: PacketType, id: PacketId)
      requires Ready() && Tracked(t)
      modifies session.Repr
      ensures Ready() && session.Contents == Without(old(session.Contents), id)
    {
      var _ := session.RemoveItem(t, id);
    }

    method SendReset()
      requires Ready()
      modifies this`heartbeat
      ensures Ready()
      ensures heartbeat == old(heartbeat).(sendCounter := old(heartbeat).resetValue)
    {
      heartbeat := heartbeat.(sendCounter := heartbeat.resetValue);
    }

    method RecvReset()
      requires Ready()
      modifies this`heartbeat
      ensures Ready()
      ensures heartbeat == old(heartbeat).(recvCounter := (2 * old(heartbeat).resetValue) % 0x1_0000_0000)
    {
      heartbeat := heartbeat.(recvCounter := (2 * heartbeat.resetValue) % 0x1_0000_0000);
    }

    method SendStep() returns (ok: bool)
      requires Ready()
      modifies this`heartbeat
      ensures Ready()
      ensures heartbeat == old(heartbeat).(sendCounter := Stepped(old(heartbeat).sendCounter, old(heartbeat).stepValue))
      ensures ok <==> heartbeat.sendCounter != 0
    {
      if heartbeat.sendCounter >= heartbeat.stepValue {
        heartbeat := heartbeat.(sendCounter := heartbeat.sendCounter - heartbeat.stepValue);
      } else {
        heartbeat := heartbeat.(sendCounter := 0);
      }
      ok := heartbeat.sendCounter != 0;
    }

    method RecvStep() returns (ok: bool)
      requires Ready()
      modifies this`heartbeat
      ensures Ready()
      ensures heartbeat == old(heartbeat).(recvCounter := Stepped(old(heartbeat).recvCounter, old(heartbeat).stepValue))
      ensures ok <==> heartbeat.recvCounter != 0
    {
      if heartbeat.recvCounter >= heartbeat.stepValue {
        heartbeat := heartbeat.(recvCounter := heartbeat.recvCounter - heartbeat.stepValue);
      } else {
        heartbeat := heartbeat.(recvCounter := 0);
      }
      ok := heartbeat.recvCounter != 0;
    }

    /**
     The event switch.  `cleared` says that the payload pointer of a received PUBLISH was nulled.
     A QoS 0 publish passes through the session and leaves no trace there, even in a full pool.
     */
    method Handle(e: Event, budget: nat) returns (ok: bool, cleared: bool)
      requires Valid()
      modifies this, session.Repr
      ensures Valid()
      ensures session.Contents == SessionAfter(old(session.Contents), |session.items|, e)
      ensures heartbeat == HeartbeatAfter(old(heartbeat), e)
      ensures wire == old(wire) + Accepted(Attempts(old(session.Contents), old(heartbeat), e), budget)
      ensures notices == old(notices) + if e.SendPublish? then Notices([], old(heartbeat), e, budget) else []
      ensures ok <==> (e.SendPublish? ==> budget > 0) && (e.Tick? ==> !TimesOut(old(heartbeat)))
      ensures cleared <==> e.RecvPublish? && e.publish.qos == EXACTLY_ONCE && Live(old(session.Contents), e.publish.packetId)
      ensures e.SendPublish? && e.publish.qos == AT_MOST_ONCE && !Live(old(session.Contents), e.publish.packetId) ==>
        session.used == old(session.used) && session.free == old(session.free)
    {
      hide Added;
      hide Without;
      hide FirstWith;
      hide Live;
      hide Accepted;
      hide Session.Valid;
      ok, cleared := true, false;
      StaysTracked(session.Contents, |session.items|, e);
      NothingAccepted(budget);
      match e
      case SendConnect(a) =>
        if a.keepAlive != 0 {
          heartbeat := Heartbeat(a.keepAlive, 1, a.keepAlive, 2 * a.keepAlive);
        }
        var _ := SendFrame(Connect(Normalised(a)), budget);

      case SendSubscribe(a) =>
        var _ := SendFrame(Subscribe(a), budget);
        SendReset();
        Store(Subscribe(a));

      case SendUnsubscribe(a) =>
        var _ := SendFrame(Unsubscribe(a), budget);
        SendReset();
        Store(Unsubscribe(a));

      case SendPublish(a) =>
        ok := HandleSendPublish(a, budget);

      case RecvPublish(a) =>
        cleared := HandleRecvPublish(a, budget);

      case RecvSuback(id) =>
        RecvReset();
        Forget(SUBSCRIBE, id);

      case RecvUnsuback(id) =>
        RecvReset();
        Forget(UNSUBSCRIBE, id);

      case RecvPuback(id) =>
        RecvReset();
        Forget(PUBLISH, id);

      case RecvPubrec(id) =>
        HandleRecvPubrec(id, budget);

      case RecvPubrel(id) =>
        RecvReset();
        Forget(PUBREC, id);
        var _ := SendFrame(Pubcomp(id), budget);
        SendReset();

      case RecvPubcomp(id) =>
        RecvReset();
        Forget(PUBREL, id);

      case RecvPingresp =>
        RecvReset();
        Resend(budget);

      case Tick =>
        ok := RecvStep();
        if ok {
          var alive := SendStep();
          if !alive {
            var _ := SendFrame(Pingreq, budget);
            SendReset();
          }
        }
    }

    method HandleSendPublish(a: PublishArgs, budget: nat) returns (ok: bool)
      requires Valid()
      modifies this, session.Repr
      ensures Ready()
      ensures session.Contents == SessionAfter(old(session.Contents), |session.items|, SendPublish(a))
      ensures heartbeat == HeartbeatAfter(old(heartbeat), SendPublish(a))
      ensures wire == old(wire) + Accepted([Publish(a)], budget)
      ensures notices == old(notices) + Notices([], old(heartbeat), SendPublish(a), budget)
      ensures ok <==> budget > 0
      ensures a.qos == AT_MOST_ONCE && !Live(old(session.Contents), a.packetId) ==>
        session.used == old(session.used) && session.free == old(session.free)
    {
      hide Session.Valid;
      ghost var used, free, before := session.used, session.free, session.Contents;
      Store(Publish(a));
      ok := SendFrame(Publish(a), budget);
      FinishPublish(a, ok, used, free, before);
    }

    /**
     A QoS 0 publish leaves the session again and is reported as published; any other restarts the
     send counter.  `used`, `free` and `before` describe the session that the publish went into.
     */
    method FinishPublish(a: PublishArgs, sent: bool, ghost used: seq<ListHead<Packet>>, ghost free: seq<ListHead<Packet>>,
                         ghost before: seq<Packet>)
      requires Ready()
      requires |before| == |used| && |used| + |free| == |session.items|
      requires ListsAfterAdd(used, free, session.used, session.free)
      requires session.Contents == Added(before, |session.items|, Publish(a))
      modifies session.Repr, this`notices, this`heartbeat
      ensures Ready()
      ensures session.Contents == if a.qos == AT_MOST_ONCE then Without(old(session.Contents), a.packetId) else old(session.Contents)
      ensures heartbeat == HeartbeatAfter(old(heartbeat), SendPublish(a))
      ensures notices == old(notices) + if a.qos == AT_MOST_ONCE && sent then [PublishedQos0] else []
      ensures a.qos == AT_MOST_ONCE && !Live(before, a.packetId) ==> session.used == used && session.free == free
    {
      hide Without;
      hide FirstWith;
      hide Session.Valid;
      if a.qos != AT_MOST_ONCE {
        SendReset();
        return;
      }
      if !Live(before, a.packetId) && free != [] {
        PassesThrough(before, |session.items|, a);
        assert (used + [free[0]])[..|used|] == used && [free[0]] + free[1..] == free;
      }
      var _ := session.RemoveItem(PUBLISH, a.packetId);
      if sent {
        notices := notices + [PublishedQos0];
      }
    }

    method HandleRecvPublish(a: PublishArgs, budget: nat) returns (cleared: bool)
      requires Valid()
      modifies this, session.Repr
      ensures Ready() && notices == old(notices)
      ensures session.Contents == SessionAfter(old(session.Contents), |session.items|, RecvPublish(a))
      ensures heartbeat == HeartbeatAfter(old(heartbeat), RecvPublish(a))
      ensures wire == old(wire) + Accepted(Attempts([], old(heartbeat), RecvPublish(a)), budget)
      ensures cleared <==> a.qos == EXACTLY_ONCE && Live(old(session.Contents), a.packetId)
    {
      hide Session.Valid;
      cleared := false;
      RecvReset();
      if a.qos == AT_LEAST_ONCE {
        var _ := SendFrame(Puback(a.packetId), budget);
        SendReset();
      } else if a.qos == EXACTLY_ONCE {
        var _ := SendFrame(Pubrec(a.packetId), budget);
        SendReset();
        cleared := session.ItemExist(PUBREC, a.packetId);
        if !cleared {
          Store(Pubrec(a.packetId));
        }
      }
    }

    method HandleRecvPubrec(id: PacketId, budget: nat)
      requires Valid()
      modifies this, session.Repr
      ensures Ready() && notices == old(notices)
      ensures session.Contents == SessionAfter(old(session.Contents), |session.items|, RecvPubrec(id))
      ensures heartbeat == HeartbeatAfter(old(heartbeat), RecvPubrec(id))
      ensures wire == old(wire) + Accepted([Pubrel(id)], budget)
    {
      hide Session.Valid;
      hide Added;
      hide Without;
      hide FirstWith;
      hide Live;
      hide Accepted;
      RecvReset();
      Forget(PUBLISH, id);
      var _ := SendFrame(Pubrel(id), budget);
      SendReset();
      var found := session.ItemExist(PUBREL, id);
      if !found {
        Store(Pubrel(id));
      }
    }

    /** Re-sends every stored item in order, up to the first frame the network refuses. */
    method Resend(budget: nat)
      requires Valid()
      modifies this`wire
      ensures wire == old(wire) + Accepted(session.Contents, budget)
    {
      var iter := (p, i) => TypeOf(p) in {SUBSCRIBE, UNSUBSCRIBE, PUBLISH, PUBREC, PUBREL} && i < budget;
      var seen, ok := session.IterateThroughItems(iter);
      assert seen != [] ==> iter(session.Contents[|seen| - 1], |seen| - 1);
      wire := wire + seen;
    }

    /** One event with the callback the backend fires after it. */
    method Dispatch(e: Event, budget: nat)
      requires Valid()
      modifies this, session.Repr
      ensures Valid()
      ensures session.Contents == SessionAfter(old(session.Contents), |session.items|, e)
      ensures heartbeat == HeartbeatAfter(old(heartbeat), e)
      ensures wire == old(wire) + Accepted(Attempts(old(session.Contents), old(heartbeat), e), budget)
      ensures notices == old(notices) + Notices(old(session.Contents), old(heartbeat), e, budget)
    {
      hide SessionAfter;
      hide HeartbeatAfter;
      hide Attempts;
      hide Accepted;
      hide Live;
      hide AllTracked;
      hide Session.Valid;
      var ok, cleared := Handle(e, budget);
      match e
      case RecvPublish(a) => if !cleared { notices := notices + [MessageReceived(a)]; }
      case RecvSuback(id) => notices := notices + [Subscribed(id)];
      case RecvUnsuback(id) => notices := notices + [Unsubscribed(id)];
      case RecvPuback(id) => notices := notices + [Published(id)];
      case RecvPubrec(id) => notices := notices + [Unknown(id)];
      case RecvPubrel(id) => notices := notices + [Unknown(id)];
      case RecvPubcomp(id) => notices := notices + [Published(id)];
      case Tick => if !ok { notices := notices + [Disconnected]; }
      case _ =>
    }
  }

  /** How a successful or refused add changes the two lists. */
  ghost predicate ListsAfterAdd<T>(used: seq<T>, free: seq<T>, usedNow: seq<T>, freeNow: seq<T>) {
    if free == [] then usedNow == used && freeNow == free
    else usedNow == used + [free[0]] && freeNow == free[1..]
  }

  lemma NothingAccepted(budget: nat)
    ensures Accepted([], budget) == []
  {
  }

  /** An item added for a fresh id is the one that removal by that id takes out again. */
  lemma PassesThrough(used: seq<Packet>, capacity: nat, a: PublishArgs)
    requires !Live(used, a.packetId) && |used| < capacity
    ensures FirstWith(used + [Publish(a)], a.packetId) == |used|
  {
    var stored := used + [Publish(a)];
    assert IdOf(stored[|used|]) == a.packetId;
  }
}
