/** QoS 0 between the two clients: over lossy channels, what is delivered is a subsequence of what was sent. */
module DeliveryQos0 {
  import opened MqttTypes
  import opened SessionSpec
  import opened ManagerSpec
  import opened Options
  import opened SessionRuns
  import opened Delivery

  // ---------- Subsequences ----------

  /** The places in `all` where the items of `some` are found, in order. */
  ghost predicate Places(some: seq<PublishArgs>, all: seq<PublishArgs>, at: seq<nat>) {
    && |at| == |some|
    && (forall i :: 0 <= i < |some| ==> at[i] < |all| && all[at[i]] == some[i])
    && (forall i, j :: 0 <= i < j < |some| ==> at[i] < at[j])
  }

  ghost predicate Subsequence(some: seq<PublishArgs>, all: seq<PublishArgs>) {
    exists at :: Places(some, all, at)
  }

  lemma BothGrow(some: seq<PublishArgs>, all: seq<PublishArgs>, a: PublishArgs)
    requires Subsequence(some, all)
    ensures Subsequence(some, all + [a]) && Subsequence(some + [a], all + [a])
  {
    var at: seq<nat> :| Places(some, all, at);
    assert Places(some, all + [a], at);
    assert Places(some + [a], all + [a], at + [|all|]);
  }

  lemma OneFewer(some: seq<PublishArgs>, k: nat, all: seq<PublishArgs>)
    requires k < |some| && Subsequence(some, all)
    ensures Subsequence(some[..k] + some[k + 1..], all)
  {
    var at: seq<nat> :| Places(some, all, at);
    var fewer, there := some[..k] + some[k + 1..], at[..k] + at[k + 1..];
    forall i | 0 <= i < |fewer| ensures fewer[i] == some[Past(k, i)] && there[i] == at[Past(k, i)] {
    }
    forall i, j | 0 <= i < j < |fewer| ensures there[i] < there[j] {
      assert at[Past(k, i)] < at[Past(k, j)];
    }
    assert Places(fewer, all, there);
  }

  // ---------- The QoS 0 traffic ----------

  /** The QoS 0 messages among some packets. */
  function Frames(packets: seq<Packet>): seq<PublishArgs> {
    if packets == [] then []
    else (if packets[0].Publish? && packets[0].publish.qos == AT_MOST_ONCE then [packets[0].publish] else []) + Frames(packets[1..])
  }

  function Sends(log: seq<Happening>): seq<PublishArgs> {
    if log == [] then []
    else
      var h := log[|log| - 1];
      Sends(log[..|log| - 1]) + if h.Sent? && h.message.qos == AT_MOST_ONCE then [h.message] else []
  }

  function Deliveries0(log: seq<Happening>): seq<PublishArgs> {
    if log == [] then []
    else
      var h := log[|log| - 1];
      Deliveries0(log[..|log| - 1]) + if h.Delivered? && h.message.qos == AT_MOST_ONCE then [h.message] else []
  }

  lemma {:induction false} FramesOfBoth(x: seq<Packet>, y: seq<Packet>)
    ensures Frames(x + y) == Frames(x) + Frames(y)
  {
    if x == [] {
      assert x + y == y;
    } else {
      assert (x + y)[1..] == x[1..] + y;
      FramesOfBoth(x[1..], y);
    }
  }

  lemma FramesOfOne(p: Packet)
    ensures Frames([p]) == if p.Publish? && p.publish.qos == AT_MOST_ONCE then [p.publish] else []
  {
    assert [p][1..] == [];
  }

  lemma {:induction false} NoFrames(packets: seq<Packet>)
    requires forall i :: 0 <= i < |packets| && packets[i].Publish? ==> packets[i].publish.qos != AT_MOST_ONCE
    ensures Frames(packets) == []
  {
    if packets != [] {
      NoFrames(packets[1..]);
    }
  }

  lemma LogGrows(log: seq<Happening>, h: Happening)
    ensures Sends(log + [h]) == Sends(log) + if h.Sent? && h.message.qos == AT_MOST_ONCE then [h.message] else []
    ensures Deliveries0(log + [h]) == Deliveries0(log) + if h.Delivered? && h.message.qos == AT_MOST_ONCE then [h.message] else []
  {
    assert (log + [h])[..|log|] == log;
  }

  /** What a received packet adds to the log: the delivery of the QoS 0 message that it is. */
  lemma LogNotes(log: seq<Happening>, used: seq<Packet>, p: Packet, budget: nat)
    requires ArrivalOf(p).Some?
    ensures var after := log + Noted(Notices(used, STILL, ArrivalOf(p).value, budget));
      Sends(after) == Sends(log) && Deliveries0(after) == Deliveries0(log) + Frames([p])
  {
    assert EXACTLY_ONCE != AT_MOST_ONCE;
    hide *;
    var noted := Noted(Notices(used, STILL, ArrivalOf(p).value, budget));
    NotedArrival(used, p, budget);
    FramesOfOne(p);
    if noted == [] {
      NothingNoted(log);
      NothingAppended(Deliveries0(log));
      assert p.Publish? ==> p.publish.qos == EXACTLY_ONCE;
    } else {
      LogGrows(log, noted[0]);
      NothingAppended(Sends(log));
    }
  }

  lemma NothingNoted(log: seq<Happening>)
    ensures log + [] == log
  {
  }

  // ---------- The invariant ----------

  ghost predicate NoPublish(packets: seq<Packet>) {
    forall i :: 0 <= i < |packets| ==> !packets[i].Publish?
  }

  /** The QoS 0 messages delivered so far and then those in flight. */
  function Flow(s: System): seq<PublishArgs> {
    Deliveries0(s.log) + Frames(s.out)
  }

  /** No side stores a QoS 0 message, none comes back, and the others are in sending order. */
  ghost predicate InOrder(s: System) {
    && NoQos0(s.pub) && NoPublish(s.sub) && NoPublish(s.back)
    && Subsequence(Flow(s), Sends(s.log))
  }

  lemma SentFrames(a: PublishArgs, budget: nat)
    ensures Frames(Accepted([Publish(a)], budget)) == if a.qos == AT_MOST_ONCE && budget > 0 then [a] else []
  {
    FramesOfOne(Publish(a));
  }

  /** Sending adds the same message at both ends, or, when the network refuses it, at one. */
  lemma SendFlows(c: Config, s: System, a: PublishArgs, budget: nat)
    requires Enabled(c, s, SendMessage(a)) && Subsequence(Flow(s), Sends(s.log))
    ensures var t := Next(c, s, SendMessage(a), budget); Subsequence(Flow(t), Sends(t.log))
  {
    var t := Next(c, s, SendMessage(a), budget);
    var h, frames := Sent(a, |s.pub| < c.pubCapacity), Accepted([Publish(a)], budget);
    assert t.log == s.log + [h] && t.out == s.out + frames;
    LogGrows(s.log, h);
    FramesOfBoth(s.out, frames);
    SentFrames(a, budget);
    BothGrow(Flow(s), Sends(s.log), a);
    hide *;
    FlowIs(s);
    FlowIs(t);
    Appended(Deliveries0(s.log), Frames(s.out), Frames(frames));
    NothingAppended(Deliveries0(s.log));
    NothingAppended(Flow(s));
    NothingAppended(Sends(s.log));
  }

  lemma NothingAppended(x: seq<PublishArgs>)
    ensures x + [] == x
  {
  }

  lemma FlowIs(s: System)
    ensures Flow(s) == Deliveries0(s.log) + Frames(s.out)
  {
  }

  lemma Appended(x: seq<PublishArgs>, y: seq<PublishArgs>, z: seq<PublishArgs>)
    ensures x + (y + z) == x + y + z
  {
  }

  lemma SendKeepsOrder(c: Config, s: System, a: PublishArgs, budget: nat)
    requires InOrder(s) && Enabled(c, s, SendMessage(a))
    ensures InOrder(Next(c, s, SendMessage(a), budget))
  {
    SendFlows(c, s, a, budget);
    StepKeepsNoQos0(s.pub, c.pubCapacity, SendPublish(a));
    hide NoQos0;
    hide NoPublish;
    hide SessionAfter;
    hide Flow;
    hide Sends;
    hide Subsequence;
  }

  lemma FramesAround(out: seq<Packet>, k: nat)
    requires k < |out|
    ensures Frames(out) == Frames(out[..k]) + (Frames([out[k]]) + Frames(out[k + 1..]))
    ensures Frames(out[..k] + out[k + 1..]) == Frames(out[..k]) + Frames(out[k + 1..])
  {
    hide *;
    var front, p, back := out[..k], out[k], out[k + 1..];
    SplitAround(out, k);
    FramesOfBoth(front, [p] + back);
    FramesOfBoth([p], back);
    FramesOfBoth(front, back);
  }

  lemma SplitAround(out: seq<Packet>, k: nat)
    requires k < |out|
    ensures out == out[..k] + ([out[k]] + out[k + 1..])
  {
  }

  lemma LossKeepsOrder(out: seq<Packet>, k: nat, before: seq<PublishArgs>, all: seq<PublishArgs>)
    requires k < |out| && Subsequence(before + Frames(out), all)
    ensures Subsequence(before + Frames(out[..k] + out[k + 1..]), all)
  {
    hide *;
    FramesAround(out, k);
    FramesOfOne(out[k]);
    var p, front, back := out[k], Frames(out[..k]), Frames(out[k + 1..]);
    if Frames([p]) == [] {
      assert [] + back == back;
    } else {
      OneFewer(before + Frames(out), |before| + |front|, all);
      Middle(before, front, p.publish, back);
    }
  }

  lemma Middle(x: seq<PublishArgs>, y: seq<PublishArgs>, a: PublishArgs, z: seq<PublishArgs>)
    ensures var s, k := x + (y + ([a] + z)), |x| + |y|; s[..k] + s[k + 1..] == x + (y + z)
  {
  }

  lemma SubKeepsNoPublish(c: Config, s: System, e: Event, budget: nat)
    requires NoPublish(s.sub) && NoPublish(s.back) && IsReceive(e)
    ensures NoPublish(SubStep(c, s, e, budget).sub) && NoPublish(SubStep(c, s, e, budget).back)
  {
    hide TimesOut;
    hide Pings;
    hide Normalised;
    hide FirstWith;
    hide Live;
    hide Notices;
    hide Noted;
  }

  /** A QoS 0 message that arrives moves from the channel to the deliveries. */
  lemma ArrivalFlows(c: Config, s: System, budget: nat)
    requires Enabled(c, s, SubReceives)
    ensures var t := Next(c, s, SubReceives, budget); Flow(t) == Flow(s) && Sends(t.log) == Sends(s.log)
  {
    var p, rest, t := s.out[0], s.out[1..], Next(c, s, SubReceives, budget);
    assert s.out == [p] + rest && t.out == rest;
    FramesOfBoth([p], rest);
    if ArrivalOf(p).Some? {
      LogNotes(s.log, s.sub, p, budget);
    } else {
      FramesOfOne(p);
    }
    hide Enabled;
    hide Frames;
    hide Sends;
    hide Deliveries0;
    hide SessionAfter;
    hide Attempts;
    hide Notices;
    hide Noted;
    assert Deliveries0(t.log) + Frames(rest) == Deliveries0(s.log) + (Frames([p]) + Frames(rest));
  }

  lemma ArrivalKeepsOrder(c: Config, s: System, budget: nat)
    requires InOrder(s) && Enabled(c, s, SubReceives)
    ensures InOrder(Next(c, s, SubReceives, budget))
  {
    ArrivalFlows(c, s, budget);
    if ArrivalOf(s.out[0]).Some? {
      SubKeepsNoPublish(c, s, ArrivalOf(s.out[0]).value, budget);
    }
    hide NoPublish;
    hide NoQos0;
    hide Enabled;
    hide SessionAfter;
    hide Attempts;
    hide Notices;
    hide Noted;
    hide Flow;
    hide Sends;
    hide Subsequence;
  }

  /** The frames of a stored session or of an answer hold no QoS 0 message. */
  lemma NoFramesFromPub(used: seq<Packet>, p: Packet, budget: nat)
    requires NoQos0(used)
    ensures Frames(Accepted(used, budget)) == []
    ensures ArrivalOf(p).Some? ==> Frames(Accepted(Attempts(used, STILL, ArrivalOf(p).value), budget)) == []
  {
    NoFrames(Accepted(used, budget));
    if ArrivalOf(p).Some? {
      NoFrames(Accepted(Attempts(used, STILL, ArrivalOf(p).value), budget));
    }
  }

  /** An answer adds no QoS 0 message anywhere. */
  lemma AnswerFlows(c: Config, s: System, p: Packet, budget: nat)
    requires NoQos0(s.pub) && ArrivalOf(p).Some? && !p.Publish?
    ensures var t := PubStep(c, s, ArrivalOf(p).value, budget); Flow(t) == Flow(s) && Sends(t.log) == Sends(s.log)
  {
    var e := ArrivalOf(p).value;
    LogNotes(s.log, s.pub, p, budget);
    FramesOfOne(p);
    NoFramesFromPub(s.pub, p, budget);
    FramesOfBoth(s.out, Accepted(Attempts(s.pub, STILL, e), budget));
    hide NoQos0;
    hide ArrivalOf;
    hide SessionAfter;
    hide Attempts;
    hide Notices;
    hide Noted;
    hide Frames;
    hide Sends;
    hide Deliveries0;
    assert Deliveries0(s.log) + [] == Deliveries0(s.log) && Frames(s.out) + [] == Frames(s.out);
  }

  lemma SameFlow(s: System, t: System)
    requires InOrder(s) && Flow(t) == Flow(s) && Sends(t.log) == Sends(s.log)
    requires NoQos0(t.pub) && NoPublish(t.sub) && NoPublish(t.back)
    ensures InOrder(t)
  {
  }

  lemma HeadComesBack(s: System)
    requires InOrder(s) && s.back != []
    ensures var t := s.(back := s.back[1..]); InOrder(t) && !s.back[0].Publish? && NoQos0(s.pub)
  {
  }

  lemma AnswerKeepsOrder(c: Config, s: System, budget: nat)
    requires InOrder(s) && s.back != []
    ensures InOrder(Next(c, s, PubReceives, budget))
  {
    var p, t := s.back[0], s.(back := s.back[1..]);
    var e := ArrivalOf(p);
    assert Next(c, s, PubReceives, budget) == if e.Some? then PubStep(c, t, e.value, budget) else t;
    HeadComesBack(s);
    if e.Some? {
      AnswerFlows(c, t, p, budget);
      AnswerKeepsQos0(c, t, p, budget);
      hide *;
      SameFlow(t, PubStep(c, t, e.value, budget));
    }
  }

  lemma AnswerKeepsQos0(c: Config, s: System, p: Packet, budget: nat)
    requires InOrder(s) && ArrivalOf(p).Some? && !p.Publish?
    ensures var t := PubStep(c, s, ArrivalOf(p).value, budget); NoQos0(t.pub) && NoPublish(t.sub) && NoPublish(t.back)
  {
    StepKeepsNoQos0(s.pub, c.pubCapacity, ArrivalOf(p).value);
    hide NoQos0;
    hide NoPublish;
    hide SessionAfter;
    hide Attempts;
    hide Notices;
    hide Noted;
    hide Flow;
    hide Sends;
    hide Subsequence;
  }

  lemma PubResendKeepsOrder(c: Config, s: System, budget: nat)
    requires InOrder(s) && Enabled(c, s, PubResends)
    ensures InOrder(Next(c, s, PubResends, budget))
  {
    var t := Next(c, s, PubResends, budget);
    assert s.log + [] == s.log && t == s.(out := s.out + Accepted(s.pub, budget));
    NoFramesFromPub(s.pub, Pingreq, budget);
    FramesOfBoth(s.out, Accepted(s.pub, budget));
    hide Enabled;
    hide Next;
    hide Frames;
    hide NoPublish;
    hide NoQos0;
    NothingAppended(Frames(s.out));
    SameFlow(s, t);
  }

  lemma SubResendKeepsOrder(c: Config, s: System, budget: nat)
    requires InOrder(s) && Enabled(c, s, SubResends)
    ensures InOrder(Next(c, s, SubResends, budget))
  {
    var t := Next(c, s, SubResends, budget);
    assert s.log + [] == s.log && t == s.(back := s.back + Accepted(s.sub, budget));
    SubKeepsNoPublish(c, s, RecvPingresp, budget);
    hide Enabled;
    hide NoPublish;
    hide NoQos0;
    SameFlow(s, t);
  }

  lemma NextKeepsOrder(c: Config, s: System, act: Action, budget: nat)
    requires InOrder(s) && Enabled(c, s, act)
    ensures InOrder(Next(c, s, act, budget))
  {
    match act
    case SendMessage(a) => SendKeepsOrder(c, s, a, budget);
    case SubReceives => ArrivalKeepsOrder(c, s, budget);
    case PubReceives => AnswerKeepsOrder(c, s, budget);
    case SubResends => SubResendKeepsOrder(c, s, budget);
    case PubResends => PubResendKeepsOrder(c, s, budget);
    case LoseOut(k) => LossKeepsOrder(s.out, k, Deliveries0(s.log), Sends(s.log));
    case LoseBack(_) =>
  }

  lemma NothingInOrder()
    ensures InOrder(START)
  {
    assert Flow(START) == [] && Sends(START.log) == [];
    assert Places([], [], []);
  }

  /**
   In every run the QoS 0 messages delivered are a subsequence of those sent: each sending is
   delivered at most once, and in order.
   */
  lemma {:induction false} Qos0ArrivesInOrder(c: Config, steps: seq<Step>)
    ensures Subsequence(Deliveries0(Exec(c, steps).log), Sends(Exec(c, steps).log))
    ensures InOrder(Exec(c, steps))
  {
    if steps == [] {
      NothingInOrder();
    } else {
      var before, last := steps[..|steps| - 1], steps[|steps| - 1];
      Qos0ArrivesInOrder(c, before);
      if Enabled(c, Exec(c, before), last.act) {
        NextKeepsOrder(c, Exec(c, before), last.act, last.budget);
      }
      hide Next;
      hide Enabled;
    }
    var t := Exec(c, steps);
    hide Exec;
    hide Subsequence;
    assert Flow(t) == Deliveries0(t.log) + Frames(t.out);
    FrontIsSubsequence(Deliveries0(t.log), Frames(t.out), Sends(t.log));
  }

  lemma FrontIsSubsequence(front: seq<PublishArgs>, back: seq<PublishArgs>, all: seq<PublishArgs>)
    requires Subsequence(front + back, all)
    ensures Subsequence(front, all)
  {
    var at: seq<nat> :| Places(front + back, all, at);
    assert Places(front, all, at[..|front|]) by {
      assert forall i :: 0 <= i < |front| ==> (front + back)[i] == front[i];
    }
  }
}
