/** A message the publisher still holds can always be completed, from every reachable state of the two clients. */
module DeliveryProgress {
  import opened MqttTypes
  import opened SessionSpec
  import opened ManagerSpec
  import opened Options
  import opened SessionRuns
  import opened Delivery

  // ---------- Continuations ----------

  /** The system after more steps, from any state. */
  function ExecFrom(c: Config, s: System, more: seq<Step>): System
    decreases |more|
  {
    if more == [] then s else ExecFrom(c, Done(c, s, more[0]), more[1..])
  }

  ghost predicate Reaches(c: Config, s: System, t: System) {
    exists more :: ExecFrom(c, s, more) == t
  }

  lemma {:induction false} ExecContinues(c: Config, steps: seq<Step>, more: seq<Step>)
    ensures Exec(c, steps + more) == ExecFrom(c, Exec(c, steps), more)
    decreases |more|
  {
    if more == [] {
      assert steps + more == steps;
    } else {
      var one := steps + [more[0]];
      assert one[..|steps|] == steps;
      assert one + more[1..] == steps + more;
      ExecContinues(c, one, more[1..]);
    }
  }

  lemma {:induction false} ExecFromInTurn(c: Config, s: System, first: seq<Step>, second: seq<Step>)
    ensures ExecFrom(c, s, first + second) == ExecFrom(c, ExecFrom(c, s, first), second)
    decreases |first|
  {
    if first == [] {
      assert first + second == second;
    } else {
      assert (first + second)[1..] == first[1..] + second;
      ExecFromInTurn(c, Done(c, s, first[0]), first[1..], second);
    }
  }

  lemma ReachesInTurn(c: Config, s: System, t: System, u: System)
    requires Reaches(c, s, t) && Reaches(c, t, u)
    ensures Reaches(c, s, u)
  {
    var first :| ExecFrom(c, s, first) == t;
    var second :| ExecFrom(c, t, second) == u;
    ExecFromInTurn(c, s, first, second);
  }

  lemma ReachesNext(c: Config, s: System, act: Action, budget: nat)
    requires Enabled(c, s, act)
    ensures Reaches(c, s, Next(c, s, act, budget))
  {
    hide Enabled;
    hide Next;
    var one := [Step(act, budget)];
    assert one[1..] == [];
    assert ExecFrom(c, Done(c, s, one[0]), []) == Done(c, s, one[0]);
    assert ExecFrom(c, s, one) == Next(c, s, act, budget);
  }

  lemma ReachesItself(c: Config, s: System)
    ensures Reaches(c, s, s)
  {
    assert ExecFrom(c, s, []) == s;
  }

  // ---------- A quiet system in which one packet is in flight ----------

  lemma {:induction false} CanLoseOut(c: Config, s: System, k: nat)
    requires k <= |s.out|
    ensures Reaches(c, s, s.(out := s.out[k..]))
    decreases k
  {
    hide Reaches;
    if k == 0 {
      ReachesItself(c, s);
    } else {
      var t := s.(out := s.out[1..]);
      assert s.out[..0] + s.out[1..] == s.out[1..];
      ReachesNext(c, s, LoseOut(0), 0);
      CanLoseOut(c, t, k - 1);
      ReachesInTurn(c, s, t, s.(out := s.out[k..]));
    }
  }

  lemma {:induction false} CanLoseBack(c: Config, s: System, k: nat)
    requires k <= |s.back|
    ensures Reaches(c, s, s.(back := s.back[k..]))
    decreases k
  {
    hide Reaches;
    if k == 0 {
      ReachesItself(c, s);
    } else {
      var t := s.(back := s.back[1..]);
      assert s.back[..0] + s.back[1..] == s.back[1..];
      ReachesNext(c, s, LoseBack(0), 0);
      CanLoseBack(c, t, k - 1);
      ReachesInTurn(c, s, t, s.(back := s.back[k..]));
    }
  }

  lemma CanFallQuiet(c: Config, s: System)
    ensures Reaches(c, s, s.(out := [], back := []))
  {
    CanLoseOut(c, s, |s.out|);
    CanLoseBack(c, s.(out := []), |s.back|);
    hide Reaches;
    assert s.out[|s.out|..] == [] && s.back[|s.back|..] == [];
    ReachesInTurn(c, s, s.(out := []), s.(out := [], back := []));
  }

  /** A resend of the publisher can leave just its j-th item in flight. */
  lemma CanResend(c: Config, s: System, j: nat)
    requires j < |s.pub|
    ensures Reaches(c, s, s.(out := [s.pub[j]], back := []))
  {
    var quiet := s.(out := [], back := []);
    var resent := quiet.(out := s.pub[..j + 1]);
    CanFallQuiet(c, s);
    ReachesNext(c, quiet, PubResends, j + 1);
    assert Accepted(s.pub, j + 1) == s.pub[..j + 1] && s.log + [] == s.log && [] + s.pub[..j + 1] == s.pub[..j + 1];
    assert Next(c, quiet, PubResends, j + 1) == resent;
    CanLoseOut(c, resent, j);
    assert s.pub[..j + 1][j..] == [s.pub[j]];
    hide Reaches;
    ReachesInTurn(c, s, quiet, resent);
    ReachesInTurn(c, s, resent, s.(out := [s.pub[j]], back := []));
  }

  /** A resend of the subscriber can leave just its first item in flight. */
  lemma CanResendBack(c: Config, s: System)
    requires s.sub != []
    ensures Reaches(c, s, s.(out := [], back := [s.sub[0]]))
  {
    var quiet := s.(out := [], back := []);
    CanFallQuiet(c, s);
    ReachesNext(c, quiet, SubResends, 1);
    assert Accepted(s.sub, 1) == [s.sub[0]] && s.log + [] == s.log && [] + [s.sub[0]] == [s.sub[0]];
    assert Next(c, quiet, SubResends, 1) == s.(out := [], back := [s.sub[0]]);
    hide Reaches;
    ReachesInTurn(c, s, quiet, s.(out := [], back := [s.sub[0]]));
  }

  ghost predicate Sane(c: Config, s: System) {
    forall id :: Inv(c, s, id)
  }

  lemma SaneNext(c: Config, s: System, act: Action, budget: nat)
    requires Sane(c, s) && Enabled(c, s, act)
    ensures Sane(c, Next(c, s, act, budget))
  {
    forall id ensures Inv(c, Next(c, s, act, budget), id) {
      assert Inv(c, s, id);
      NextKeeps(c, s, act, budget, id);
    }
  }

  lemma {:induction false} SaneFrom(c: Config, s: System, more: seq<Step>)
    requires Sane(c, s)
    ensures Sane(c, ExecFrom(c, s, more))
    decreases |more|
  {
    if more != [] {
      if Enabled(c, s, more[0].act) {
        SaneNext(c, s, more[0].act, more[0].budget);
      }
      SaneFrom(c, Done(c, s, more[0]), more[1..]);
    }
  }

  lemma SaneReached(c: Config, s: System, t: System)
    requires Sane(c, s) && Reaches(c, s, t)
    ensures Sane(c, t)
  {
    var more :| ExecFrom(c, s, more) == t;
    SaneFrom(c, s, more);
  }

  /** What the only packet in flight leads to at the subscriber, with its answer sent. */
  function SubTook(c: Config, s: System, e: Event): System {
    System(s.pub, SessionAfter(s.sub, c.subCapacity, e), [], Accepted(Attempts(s.sub, STILL, e), 1),
           s.log + Noted(Notices(s.sub, STILL, e, 1)))
  }

  lemma CanArrive(c: Config, s: System)
    requires |s.out| == 1 && s.back == [] && ArrivalOf(s.out[0]).Some? && Enabled(c, s, SubReceives)
    ensures Reaches(c, s, SubTook(c, s, ArrivalOf(s.out[0]).value))
  {
    ReachesNext(c, s, SubReceives, 1);
    hide Reaches;
    hide SessionAfter;
    hide Attempts;
    hide Noted;
    hide Notices;
    var e := ArrivalOf(s.out[0]).value;
    assert s.out[1..] == [];
    assert [] + Accepted(Attempts(s.sub, STILL, e), 1) == Accepted(Attempts(s.sub, STILL, e), 1);
    assert Next(c, s, SubReceives, 1) == SubTook(c, s, e);
  }

  function PubTook(c: Config, s: System, e: Event): System {
    System(SessionAfter(s.pub, c.pubCapacity, e), s.sub, Accepted(Attempts(s.pub, STILL, e), 1), [],
           s.log + Noted(Notices(s.pub, STILL, e, 1)))
  }

  lemma CanComeBack(c: Config, s: System)
    requires |s.back| == 1 && s.out == [] && ArrivalOf(s.back[0]).Some?
    ensures Reaches(c, s, PubTook(c, s, ArrivalOf(s.back[0]).value))
  {
    ReachesNext(c, s, PubReceives, 1);
    hide Reaches;
    hide SessionAfter;
    hide Attempts;
    hide Noted;
    hide Notices;
    var e := ArrivalOf(s.back[0]).value;
    assert s.back[1..] == [];
    assert [] + Accepted(Attempts(s.pub, STILL, e), 1) == Accepted(Attempts(s.pub, STILL, e), 1);
    assert Next(c, s, PubReceives, 1) == PubTook(c, s, e);
  }

  // ---------- One exchange after the other ----------

  /** A packet the publisher holds is resent alone, and its answer comes back alone. */
  lemma CanExchange(c: Config, s: System, p: Packet, answer: Packet) returns (t: System)
    requires p in s.pub && ArrivalOf(p).Some? && ArrivalOf(answer).Some?
    requires Attempts(s.sub, STILL, ArrivalOf(p).value) == [answer] && Enabled(c, s.(out := [p], back := []), SubReceives)
    ensures var taken, back := ArrivalOf(p).value, ArrivalOf(answer).value;
      && t.pub == SessionAfter(s.pub, c.pubCapacity, back) && t.sub == SessionAfter(s.sub, c.subCapacity, taken)
      && t.log == s.log + Noted(Notices(s.sub, STILL, taken, 1)) + Noted(Notices(s.pub, STILL, back, 1))
    ensures Reaches(c, s, t)
  {
    hide Reaches;
    hide SessionAfter;
    hide Attempts;
    hide Notices;
    hide Noted;
    hide Enabled;
    hide ArrivalOf;
    var j :| 0 <= j < |s.pub| && s.pub[j] == p;
    var u := s.(out := [p], back := []);
    var v := SubTook(c, u, ArrivalOf(p).value);
    t := PubTook(c, v, ArrivalOf(answer).value);
    CanResend(c, s, j);
    CanArrive(c, u);
    CanComeBack(c, v);
    ReachesInTurn(c, s, u, v);
    ReachesInTurn(c, s, v, t);
  }

  /** The subscriber's oldest item is resent alone, and the answer comes back alone. */
  lemma CanExchangeBack(c: Config, s: System, answer: Packet) returns (t: System)
    requires s.sub != [] && ArrivalOf(s.sub[0]).Some? && ArrivalOf(answer).Some? && !answer.Publish?
    requires Attempts(s.pub, STILL, ArrivalOf(s.sub[0]).value) == [answer]
    ensures var taken, back := ArrivalOf(s.sub[0]).value, ArrivalOf(answer).value;
      && t.pub == SessionAfter(s.pub, c.pubCapacity, taken) && t.sub == SessionAfter(s.sub, c.subCapacity, back)
      && t.log == s.log + Noted(Notices(s.pub, STILL, taken, 1)) + Noted(Notices(s.sub, STILL, back, 1))
    ensures Reaches(c, s, t)
  {
    hide Reaches;
    hide SessionAfter;
    hide Attempts;
    hide Notices;
    hide Noted;
    hide ArrivalOf;
    var u := s.(out := [], back := [s.sub[0]]);
    var v := PubTook(c, u, ArrivalOf(s.sub[0]).value);
    t := SubTook(c, v, ArrivalOf(answer).value);
    CanResendBack(c, s);
    CanComeBack(c, u);
    CanArrive(c, v);
    ReachesInTurn(c, s, u, v);
    ReachesInTurn(c, s, v, t);
  }

  lemma HeldIsThere(c: Config, s: System, id: PacketId, p: Packet)
    requires Sane(c, s) && Held(s.pub, id) == Some(p)
    ensures p in s.pub && IdOf(p) == id
    ensures Single(s.pub, id) && Single(s.sub, id) && |s.pub| <= c.pubCapacity && |s.sub| <= c.subCapacity
  {
    assert Inv(c, s, id);
    hide Single;
    hide Held;
    HeldIsTheEntry(s.pub, id);
  }

  /** What the acknowledgements cause at either side. */
  lemma Acknowledgements(used: seq<Packet>, id: PacketId)
    ensures ArrivalOf(Puback(id)) == Some(RecvPuback(id)) && ArrivalOf(Pubrec(id)) == Some(RecvPubrec(id))
    ensures ArrivalOf(Pubrel(id)) == Some(RecvPubrel(id)) && ArrivalOf(Pubcomp(id)) == Some(RecvPubcomp(id))
    ensures Attempts(used, STILL, RecvPubrec(id)) == [Pubrel(id)] && Attempts(used, STILL, RecvPubrel(id)) == [Pubcomp(id)]
    ensures Noted(Notices(used, STILL, RecvPubrec(id), 1)) == [] && Noted(Notices(used, STILL, RecvPubrel(id), 1)) == []
    ensures Noted(Notices(used, STILL, RecvPuback(id), 1)) == [Completed(id)]
    ensures Noted(Notices(used, STILL, RecvPubcomp(id), 1)) == [Completed(id)]
  {
  }

  lemma AckClears(used: seq<Packet>, capacity: nat, e: Event, id: PacketId)
    requires Single(used, id) && |used| <= capacity && e in {RecvPuback(id), RecvPubrel(id), RecvPubcomp(id)}
    ensures !Live(SessionAfter(used, capacity, e), id)
  {
    StepRefinesAutomaton(used, capacity, e, id);
    hide SessionAfter;
    hide Single;
  }

  lemma IdOfPublish(a: PublishArgs)
    ensures IdOf(Publish(a)) == a.packetId
  {
  }

  lemma PubrelMayArrive(c: Config, s: System, id: PacketId)
    requires s.out == [Pubrel(id)]
    ensures Enabled(c, s, SubReceives)
  {
  }

  lemma LogOfTwo(log: seq<Happening>, x: seq<Happening>, y: seq<Happening>)
    ensures x == [] ==> log + x + y == log + y
    ensures y == [] ==> log + x + y == log + x
    ensures log + x + y == log + (x + y)
  {
  }

  /** A PUBREL that the publisher holds can be answered, which completes its message and clears both sides of the id. */
  lemma CanRelease(c: Config, s: System, id: PacketId) returns (t: System)
    requires Sane(c, s) && Held(s.pub, id) == Some(Pubrel(id))
    ensures Reaches(c, s, t) && t.log == s.log + [Completed(id)]
    ensures !Live(t.pub, id) && !Live(t.sub, id)
  {
    HeldIsThere(c, s, id, Pubrel(id));
    hide *;
    Acknowledgements(s.sub, id);
    Acknowledgements(s.pub, id);
    PubrelMayArrive(c, s.(out := [Pubrel(id)], back := []), id);
    t := CanExchange(c, s, Pubrel(id), Pubcomp(id));
    LogOfTwo(s.log, [], [Completed(id)]);
    AckClears(s.sub, c.subCapacity, RecvPubrel(id), id);
    AckClears(s.pub, c.pubCapacity, RecvPubcomp(id), id);
  }

  /** A QoS 1 message arrives, is delivered and answered, and leaves the subscriber's session alone. */
  lemma Qos1Arrives(c: Config, s: System, a: PublishArgs)
    requires a.qos == AT_LEAST_ONCE
    ensures ArrivalOf(Publish(a)) == Some(RecvPublish(a)) && Attempts(s.sub, STILL, RecvPublish(a)) == [Puback(a.packetId)]
    ensures Enabled(c, s.(out := [Publish(a)], back := []), SubReceives)
    ensures Noted(Notices(s.sub, STILL, RecvPublish(a), 1)) == [Delivered(a)]
    ensures SessionAfter(s.sub, c.subCapacity, RecvPublish(a)) == s.sub
  {
  }

  /** A QoS 1 message that the publisher holds can be delivered and answered. */
  lemma CanFinishQos1(c: Config, s: System, id: PacketId, a: PublishArgs) returns (t: System)
    requires Sane(c, s) && Held(s.pub, id) == Some(Publish(a)) && a.qos == AT_LEAST_ONCE
    requires !Live(s.sub, id)
    ensures Reaches(c, s, t) && t.log == s.log + [Delivered(a), Completed(id)]
    ensures !Live(t.pub, id) && !Live(t.sub, id)
  {
    HeldIsThere(c, s, id, Publish(a));
    hide *;
    IdOfPublish(a);
    Qos1Arrives(c, s, a);
    Acknowledgements(s.pub, id);
    t := CanExchange(c, s, Publish(a), Puback(id));
    LogOfTwo(s.log, [Delivered(a)], [Completed(id)]);
    AckClears(s.pub, c.pubCapacity, RecvPuback(id), id);
  }

  /** A QoS 2 message that the publisher holds can be answered and turned into PUBREL, delivered unless it was before. */
  lemma CanHandOver(c: Config, s: System, id: PacketId, a: PublishArgs) returns (t: System)
    requires Sane(c, s) && Held(s.pub, id) == Some(Publish(a)) && a.qos == EXACTLY_ONCE
    requires Live(s.sub, id) || |s.sub| < c.subCapacity
    ensures Reaches(c, s, t) && t.log == s.log + if Live(s.sub, id) then [] else [Delivered(a)]
    ensures Held(t.pub, id) == Some(Pubrel(id))
  {
    HeldIsThere(c, s, id, Publish(a));
    t := CanExchange(c, s, Publish(a), Pubrec(id));
    hide Reaches;
    hide SessionAfter;
    hide Sane;
    hide Single;
    hide Held;
    StepRefinesAutomaton(s.pub, c.pubCapacity, RecvPubrec(id), id);
  }

  /** A subscriber holds nothing but PUBRECs. */
  lemma SubHoldsPubrec(c: Config, s: System)
    requires Sane(c, s) && s.sub != []
    ensures s.sub[0] == Pubrec(IdOf(s.sub[0]))
  {
    var id := IdOf(s.sub[0]);
    assert Inv(c, s, id);
    hide Single;
    hide Held;
    HeldIsTheEntry(s.sub, id);
  }

  /** The exchange that releases the entry of `k` makes room and touches no other id. */
  lemma ReleaseMakesRoom(c: Config, s: System, k: PacketId, id: PacketId)
    requires Single(s.pub, id) && Single(s.sub, id) && |s.pub| <= c.pubCapacity && |s.sub| <= c.subCapacity
    requires Live(s.sub, k) && k != id
    ensures |SessionAfter(s.sub, c.subCapacity, RecvPubrel(k))| < c.subCapacity
    ensures Held(SessionAfter(s.pub, c.pubCapacity, RecvPubrec(k)), id) == Held(s.pub, id)
    ensures Held(SessionAfter(s.sub, c.subCapacity, RecvPubrel(k)), id) == Held(s.sub, id)
  {
    WithoutEntries(s.sub, k, k);
    assert SessionAfter(s.sub, c.subCapacity, RecvPubrel(k)) == Without(s.sub, k);
    PubrecElsewhere(s.pub, c.pubCapacity, k, id);
    PubrelElsewhere(s.sub, c.subCapacity, k, id);
    hide *;
  }

  lemma PubrecElsewhere(used: seq<Packet>, capacity: nat, k: PacketId, id: PacketId)
    requires Single(used, id) && |used| <= capacity && k != id
    ensures Held(SessionAfter(used, capacity, RecvPubrec(k)), id) == Held(used, id)
  {
    StepRefinesAutomaton(used, capacity, RecvPubrec(k), id);
    hide SessionAfter;
    hide Single;
    hide Held;
  }

  lemma PubrelElsewhere(used: seq<Packet>, capacity: nat, k: PacketId, id: PacketId)
    requires Single(used, id) && |used| <= capacity && k != id
    ensures Held(SessionAfter(used, capacity, RecvPubrel(k)), id) == Held(used, id)
  {
    StepRefinesAutomaton(used, capacity, RecvPubrel(k), id);
    hide SessionAfter;
    hide Single;
    hide Held;
  }

  /** A subscriber without room can be made to release the oldest of its entries, with nothing happening to another id. */
  lemma CanMakeRoom(c: Config, s: System, id: PacketId) returns (t: System)
    requires Sane(c, s) && s.sub != [] && !Live(s.sub, id)
    ensures Reaches(c, s, t) && t.log == s.log && |t.sub| < c.subCapacity
    ensures Held(t.pub, id) == Held(s.pub, id) && !Live(t.sub, id)
  {
    var k := IdOf(s.sub[0]);
    SubHoldsPubrec(c, s);
    assert Live(s.sub, k) && Inv(c, s, id);
    assert Single(s.pub, id) && Single(s.sub, id) && |s.pub| <= c.pubCapacity && |s.sub| <= c.subCapacity;
    hide *;
    ReleaseMakesRoom(c, s, k, id);
    Acknowledgements(s.sub, k);
    Acknowledgements(s.pub, k);
    t := CanExchangeBack(c, s, Pubrel(k));
    LogOfTwo(s.log, [], []);
  }

  // ---------- Progress ----------

  /** From `s` to `t` just this happened: the message under `id` was delivered, unless it had been before, and reported as published. */
  ghost predicate Finishes(s: System, t: System, id: PacketId) {
    var m := LastSent(s.log, id);
    && m.Some? && !Live(t.pub, id) && !Live(t.sub, id)
    && (t.log == s.log + [Delivered(m.value.args), Completed(id)]
        || (Deliveries(s.log, id) >= 1 && t.log == s.log + [Completed(id)]))
  }

  lemma CanFinishQos2(c: Config, s: System, id: PacketId, a: PublishArgs) returns (t: System)
    requires Sane(c, s) && Held(s.pub, id) == Some(Publish(a)) && a.packetId == id && a.qos == EXACTLY_ONCE
    requires c.subCapacity >= 1
    ensures Reaches(c, s, t) && t.log == s.log + (if Live(s.sub, id) then [] else [Delivered(a)]) + [Completed(id)]
    ensures !Live(t.pub, id) && !Live(t.sub, id)
  {
    hide Reaches;
    hide Sane;
    ReachesItself(c, s);
    var u := s;
    if !Live(s.sub, id) && |s.sub| >= c.subCapacity {
      u := CanMakeRoom(c, s, id);
    }
    SaneReached(c, s, u);
    var v := CanHandOver(c, u, id, a);
    ReachesInTurn(c, s, u, v);
    SaneReached(c, s, v);
    t := CanRelease(c, v, id);
    ReachesInTurn(c, s, v, t);
  }

  lemma CanFinish(c: Config, s: System, id: PacketId) returns (t: System)
    requires Sane(c, s) && Live(s.pub, id)
    requires var m := LastSent(s.log, id); m.Some? && m.value.args.qos == EXACTLY_ONCE ==> c.subCapacity >= 1
    ensures Reaches(c, s, t) && Finishes(s, t, id)
  {
    assert Inv(c, s, id);
    var a := LastSent(s.log, id).value.args;
    if Held(s.pub, id) == Some(Pubrel(id)) {
      t := CanRelease(c, s, id);
    } else if a.qos == AT_LEAST_ONCE {
      t := CanFinishQos1(c, s, id, a);
    } else {
      t := CanFinishQos2(c, s, id, a);
    }
  }

  /**
   From every reachable state, whatever is in flight and however full the subscriber is, some
   continuation delivers the very message the publisher holds under an id, unless that was done
   before, reports it as published, and leaves neither side holding the id.
   */
  lemma HeldMessageCanComplete(c: Config, steps: seq<Step>, id: PacketId)
    requires Live(Exec(c, steps).pub, id)
    requires var m := LastSent(Exec(c, steps).log, id); m.Some? && m.value.args.qos == EXACTLY_ONCE ==> c.subCapacity >= 1
    ensures exists more: seq<Step> :: Finishes(Exec(c, steps), Exec(c, steps + more), id)
  {
    hide Finishes;
    hide Exec;
    hide Inv;
    var s := Exec(c, steps);
    EveryRunIsGood(c, steps);
    var t := CanFinish(c, s, id);
    var more :| ExecFrom(c, s, more) == t;
    ExecContinues(c, steps, more);
    assert Finishes(s, Exec(c, steps + more), id);
  }

  /** The message last sent under this id was stored, and PUBLISHED has not come since. */
  predicate Unfinished(log: seq<Happening>, id: PacketId) {
    log != [] &&
      var h, before := log[|log| - 1], log[..|log| - 1];
      if h.Sent? && Names(Publish(h.message), id) then h.stored
      else h != Completed(id) && Unfinished(before, id)
  }

  lemma UnfinishedNext(log: seq<Happening>, h: Happening, id: PacketId)
    ensures Unfinished(log + [h], id)
      == if h.Sent? && Names(Publish(h.message), id) then h.stored else h != Completed(id) && Unfinished(log, id)
  {
    assert (log + [h])[..|log|] == log;
  }

  lemma UnfinishedNoted(log: seq<Happening>, notices: seq<Notice>, id: PacketId)
    ensures Unfinished(log + Noted(notices), id) ==> Unfinished(log, id) && Noted(notices) != [Completed(id)]
  {
    var noted := Noted(notices);
    if noted == [] {
      assert log + noted == log;
    } else {
      UnfinishedNext(log, noted[0], id);
    }
  }

  lemma SendKeepsUnfinished(c: Config, s: System, a: PublishArgs, budget: nat, id: PacketId)
    requires Inv(c, s, id) && Enabled(c, s, SendMessage(a)) && (Unfinished(s.log, id) ==> Live(s.pub, id))
    ensures var t := Next(c, s, SendMessage(a), budget); Unfinished(t.log, id) ==> Live(t.pub, id)
  {
    hide Phase;
    hide Unfinished;
    hide Live;
    hide Named;
    hide Single;
    hide Held;
    var h := Sent(a, |s.pub| < c.pubCapacity);
    assert Next(c, s, SendMessage(a), budget).log == s.log + [h];
    UnfinishedNext(s.log, h, id);
    StepRefinesAutomaton(s.pub, c.pubCapacity, SendPublish(a), id);
    hide SessionAfter;
  }

  /** An answer either completes the message of an id or leaves an entry for it; what names another id does not touch it. */
  lemma AnswerCompletesOrKeeps(held: Option<Packet>, room: bool, p: Packet, id: PacketId, used: seq<Packet>, budget: nat)
    requires ArrivalOf(p).Some? && (Names(p, id) ==> p in {Puback(id), Pubrec(id), Pubcomp(id)})
    ensures held.Some? ==>
      || NextHeld(held, room, ArrivalOf(p).value, id).Some?
      || Noted(Notices(used, STILL, ArrivalOf(p).value, budget)) == [Completed(id)]
    ensures SentId(ArrivalOf(p).value) == None
  {
  }

  lemma AnswerKeepsUnfinished(c: Config, s: System, budget: nat, id: PacketId)
    requires Inv(c, s, id) && s.back != [] && (Unfinished(s.log, id) ==> Live(s.pub, id))
    ensures var t := Next(c, s, PubReceives, budget); Unfinished(t.log, id) ==> Live(t.pub, id)
  {
    var p := s.back[0];
    if Names(p, id) {
      Answers(s.out, s.back, p, Held(s.pub, id), Held(s.sub, id), id, LastSent(s.log, id), Deliveries(s.log, id));
    }
    if ArrivalOf(p).Some? {
      var e := ArrivalOf(p).value;
      hide Phase;
      hide Unfinished;
      hide Live;
      hide Single;
      hide Held;
      hide Attempts;
      hide Notices;
      hide Noted;
      hide ArrivalOf;
      hide NextHeld;
      hide SessionAfter;
      UnfinishedNoted(s.log, Notices(s.pub, STILL, e, budget), id);
      AnswerCompletesOrKeeps(Held(s.pub, id), |s.pub| < c.pubCapacity, p, id, s.pub, budget);
      StepRefinesAutomaton(s.pub, c.pubCapacity, e, id);
    }
  }

  lemma KeepsUnfinished(c: Config, s: System, act: Action, budget: nat, id: PacketId)
    requires Inv(c, s, id) && Enabled(c, s, act) && (Unfinished(s.log, id) ==> Live(s.pub, id))
    ensures var t := Next(c, s, act, budget); Unfinished(t.log, id) ==> Live(t.pub, id)
  {
    hide Inv;
    hide Unfinished;
    hide Live;
    assert s.log + [] == s.log;
    match act
    case SendMessage(a) => SendKeepsUnfinished(c, s, a, budget, id);
    case PubReceives => AnswerKeepsUnfinished(c, s, budget, id);
    case SubReceives =>
      var e := ArrivalOf(s.out[0]);
      if e.Some? {
        UnfinishedNoted(s.log, Notices(s.sub, STILL, e.value, budget), id);
      }
    case _ =>
  }

  /** Until a stored message is reported as published, the publisher holds it, as PUBLISH or as PUBREL. */
  lemma {:induction false} UnfinishedIsHeld(c: Config, steps: seq<Step>, id: PacketId)
    ensures Unfinished(Exec(c, steps).log, id) ==> Live(Exec(c, steps).pub, id)
  {
    hide Unfinished;
    if steps == [] {
      NothingUnfinished(id);
    } else {
      var before, last := steps[..|steps| - 1], steps[|steps| - 1];
      UnfinishedIsHeld(c, before, id);
      EveryRunIsGood(c, before);
      hide Next;
      hide Enabled;
      hide Inv;
      if Enabled(c, Exec(c, before), last.act) {
        KeepsUnfinished(c, Exec(c, before), last.act, last.budget, id);
      }
    }
  }

  lemma NothingUnfinished(id: PacketId)
    ensures !Unfinished(START.log, id)
  {
  }
}
