/**
 Two clients back to back: a publisher and a subscriber joined by two FIFO channels that may lose
 any packet.  Each side may be told to resend its session at any time.  The subscriber's answers go
 straight back, so one client plays the broker for the other.
 */
module Delivery {
  import opened MqttTypes
  import opened SessionSpec
  import opened ManagerSpec
  import opened Options
  import opened SessionRuns

  datatype Config = Config(pubCapacity: nat, subCapacity: nat)

  /** What the two applications see: a message handed over (and whether the publisher could store it), a delivery, a PUBLISHED callback. */
  datatype Happening =
    | Sent(message: PublishArgs, stored: bool)
    | Delivered(message: PublishArgs)
    | Completed(id: PacketId)

  datatype System = System(
    pub: seq<Packet>,   // the publisher's session
    sub: seq<Packet>,   // the subscriber's session
    out: seq<Packet>,   // in flight to the subscriber
    back: seq<Packet>,  // in flight to the publisher
    log: seq<Happening>)

  datatype Action =
    | SendMessage(message: PublishArgs)
    | SubReceives
    | PubReceives
    | SubResends
    | PubResends
    | LoseOut(i: nat)
    | LoseBack(i: nat)

  const START := System([], [], [], [], [])

  // The heartbeat decides only what a tick does, and a tick touches neither session nor log.
  const STILL := Heartbeat(1, 1, 1, 1)

  /** The event a packet causes where it arrives; other kinds are refused by the receiver. */
  function ArrivalOf(p: Packet): Option<Event> {
    match p
    case Publish(a) => Some(RecvPublish(a))
    case Puback(id) => Some(RecvPuback(id))
    case Pubrec(id) => Some(RecvPubrec(id))
    case Pubrel(id) => Some(RecvPubrel(id))
    case Pubcomp(id) => Some(RecvPubcomp(id))
    case _ => None
  }

  /** The packet names this id; a QoS 0 PUBLISH carries none. */
  predicate Names(p: Packet, id: PacketId) {
    IdOf(p) == id && (p.Publish? ==> p.publish.qos != AT_MOST_ONCE)
  }

  predicate Named(packets: seq<Packet>, id: PacketId) {
    exists i :: 0 <= i < |packets| && Names(packets[i], id)
  }

  function Noted(notices: seq<Notice>): seq<Happening> {
    if |notices| == 1 && notices[0].MessageReceived? then [Delivered(notices[0].publish)]
    else if |notices| == 1 && notices[0].Published? then [Completed(notices[0].id)]
    else []
  }

  /** An id is taken for a new message only when nothing names it, and the subscriber has room for a new QoS 2 message. */
  predicate Enabled(c: Config, s: System, act: Action) {
    match act
    case SendMessage(a) =>
      && a.qos in {AT_MOST_ONCE, AT_LEAST_ONCE, EXACTLY_ONCE}
      && !Live(s.pub, a.packetId) && !Live(s.sub, a.packetId)
      && !Named(s.out, a.packetId) && !Named(s.back, a.packetId)
    case SubReceives =>
      s.out != [] && (s.out[0].Publish? && s.out[0].publish.qos == EXACTLY_ONCE ==>
        Live(s.sub, s.out[0].publish.packetId) || |s.sub| < c.subCapacity)
    case PubReceives => s.back != []
    case LoseOut(i) => i < |s.out|
    case LoseBack(i) => i < |s.back|
    case _ => true
  }

  /** One event at the publisher: its frames join `out`, as many as `budget` allows. */
  function PubStep(c: Config, s: System, e: Event, budget: nat): System {
    s.(pub := SessionAfter(s.pub, c.pubCapacity, e),
       out := s.out + Accepted(Attempts(s.pub, STILL, e), budget),
       log := s.log + Noted(Notices(s.pub, STILL, e, budget)))
  }

  function SubStep(c: Config, s: System, e: Event, budget: nat): System {
    s.(sub := SessionAfter(s.sub, c.subCapacity, e),
       back := s.back + Accepted(Attempts(s.sub, STILL, e), budget),
       log := s.log + Noted(Notices(s.sub, STILL, e, budget)))
  }

  function Next(c: Config, s: System, act: Action, budget: nat): System
    requires Enabled(c, s, act)
  {
    match act
    case SendMessage(a) =>
      var t := PubStep(c, s, SendPublish(a), budget);
      t.(log := t.log + [Sent(a, |s.pub| < c.pubCapacity)])
    case SubReceives =>
      var t, e := s.(out := s.out[1..]), ArrivalOf(s.out[0]);
      if e.Some? then SubStep(c, t, e.value, budget) else t
    case PubReceives =>
      var t, e := s.(back := s.back[1..]), ArrivalOf(s.back[0]);
      if e.Some? then PubStep(c, t, e.value, budget) else t
    case SubResends => SubStep(c, s, RecvPingresp, budget)
    case PubResends => PubStep(c, s, RecvPingresp, budget)
    case LoseOut(i) => s.(out := s.out[..i] + s.out[i + 1..])
    case LoseBack(i) => s.(back := s.back[..i] + s.back[i + 1..])
  }

  // ---------- What the log must say ----------

  datatype Message = Message(args: PublishArgs, stored: bool)

  /** The last message above QoS 0 sent under this id. */
  function LastSent(log: seq<Happening>, id: PacketId): Option<Message> {
    if log == [] then None
    else
      var h := log[|log| - 1];
      if h.Sent? && Names(Publish(h.message), id) then Some(Message(h.message, h.stored))
      else LastSent(log[..|log| - 1], id)
  }

  /** How often the message last sent under this id has been delivered. */
  function Deliveries(log: seq<Happening>, id: PacketId): nat {
    if log == [] then 0
    else
      var h, before := log[|log| - 1], log[..|log| - 1];
      if h.Sent? && Names(Publish(h.message), id) then 0
      else Deliveries(before, id) + if h.Delivered? && Names(Publish(h.message), id) then 1 else 0
  }

  /**
   A delivery above QoS 0 is of the very message last sent under its id, and at QoS 2 it is the
   first.  PUBLISHED comes after at least one delivery at QoS 1 and after exactly one at QoS 2.
   */
  ghost predicate GoodAt(before: seq<Happening>, h: Happening) {
    match h
    case Sent(_, _) => true
    case Delivered(a) =>
      a.qos != AT_MOST_ONCE ==>
        var m := LastSent(before, a.packetId);
        m.Some? && m.value.args == a && (a.qos == EXACTLY_ONCE ==> Deliveries(before, a.packetId) == 0)
    case Completed(id) =>
      var m := LastSent(before, id);
      m.Some? && Deliveries(before, id) >= 1 && (m.value.args.qos == EXACTLY_ONCE ==> Deliveries(before, id) == 1)
  }

  ghost predicate GoodLog(log: seq<Happening>) {
    forall i :: 0 <= i < |log| ==> GoodAt(log[..i], log[i])
  }

  // ---------- The invariant of one id ----------

  /**
   Everything that concerns one id: what names it in the two channels, the publisher's entry `held`,
   the subscriber's entry `kept`, the message `m` last sent under it, and how often that was delivered.
   */
  ghost predicate Phase(out: seq<Packet>, back: seq<Packet>, held: Option<Packet>, kept: Option<Packet>,
                        id: PacketId, m: Option<Message>, n: nat) {
    match m
    case None => n == 0 && !Named(out, id) && !Named(back, id) && held == None && kept == None
    case Some(Message(a, stored)) =>
      && Names(Publish(a), id)
      && (forall p :: p in out && Names(p, id) ==> p == Publish(a) || p == Pubrel(id))
      && (forall p :: p in back && Names(p, id) ==> p == Puback(id) || p == Pubrec(id) || p == Pubcomp(id))
      && (held == None || held == Some(Publish(a)) || held == Some(Pubrel(id)))
      && (kept == None || kept == Some(Pubrec(id)))
      && (stored && n == 0 ==> held == Some(Publish(a)))
      && ((a.qos == AT_LEAST_ONCE && AtLeastOnce(out, back, held, kept, id, n))
          || (a.qos == EXACTLY_ONCE && ExactlyOnce(out, back, held, kept, id, Publish(a), n)))
  }

  ghost predicate AtLeastOnce(out: seq<Packet>, back: seq<Packet>, held: Option<Packet>, kept: Option<Packet>,
                              id: PacketId, n: nat) {
    && Pubrel(id) !in out && Pubrec(id) !in back && Pubcomp(id) !in back
    && held != Some(Pubrel(id)) && kept == None
    && (Puback(id) in back ==> n >= 1)
  }

  ghost predicate ExactlyOnce(out: seq<Packet>, back: seq<Packet>, held: Option<Packet>, kept: Option<Packet>,
                              id: PacketId, p: Packet, n: nat) {
    && n <= 1 && Puback(id) !in back
    && NoneAfter(out, Pubrel(id), p)
    && (held == Some(p) ==> Pubrel(id) !in out)
    && (kept.Some? || held == Some(Pubrel(id)) ==> n == 1)
    && (Pubrel(id) in out || Pubrec(id) in back || Pubcomp(id) in back ==> n == 1)
    && (n == 1 && (p in out || held == Some(p)) ==> kept.Some?)
    && (Pubcomp(id) in back ==> p !in out && held != Some(p))
  }

  /** No `q` follows a `p`. */
  ghost predicate NoneAfter(packets: seq<Packet>, p: Packet, q: Packet) {
    forall i, j :: 0 <= i < j < |packets| && packets[i] == p ==> packets[j] != q
  }

  ghost predicate Inv(c: Config, s: System, id: PacketId) {
    && |s.pub| <= c.pubCapacity && |s.sub| <= c.subCapacity
    && Single(s.pub, id) && Single(s.sub, id)
    && Phase(s.out, s.back, Held(s.pub, id), Held(s.sub, id), id, LastSent(s.log, id), Deliveries(s.log, id))
  }

  // ---------- Channels ----------

  /** What may be put on the outgoing channel: a message while it is held, its PUBREL once it was delivered. */
  ghost predicate MayGoOut(p: Packet, held: Option<Packet>, id: PacketId, m: Option<Message>, n: nat) {
    Names(p, id) ==>
      m.Some? && ((p == Publish(m.value.args) && (held == Some(p) || n == 0))
                  || (p == Pubrel(id) && m.value.args.qos == EXACTLY_ONCE && n == 1 && held != Some(Publish(m.value.args))))
  }

  lemma OutGrows(out: seq<Packet>, p: Packet, back: seq<Packet>, held: Option<Packet>, kept: Option<Packet>,
                 id: PacketId, m: Option<Message>, n: nat)
    requires Phase(out, back, held, kept, id, m, n) && MayGoOut(p, held, id, m, n)
    ensures Phase(out + [p], back, held, kept, id, m, n)
  {
  }

  ghost predicate MayGoBack(p: Packet, out: seq<Packet>, held: Option<Packet>, id: PacketId, m: Option<Message>, n: nat) {
    Names(p, id) ==>
      m.Some? && ((p == Puback(id) && m.value.args.qos == AT_LEAST_ONCE && n >= 1)
                  || (p == Pubrec(id) && m.value.args.qos == EXACTLY_ONCE && n == 1)
                  || (p == Pubcomp(id) && m.value.args.qos == EXACTLY_ONCE && n == 1
                      && Publish(m.value.args) !in out && held != Some(Publish(m.value.args))))
  }

  lemma BackGrows(out: seq<Packet>, back: seq<Packet>, p: Packet, held: Option<Packet>, kept: Option<Packet>,
                  id: PacketId, m: Option<Message>, n: nat)
    requires Phase(out, back, held, kept, id, m, n) && MayGoBack(p, out, held, id, m, n)
    ensures Phase(out, back + [p], held, kept, id, m, n)
  {
  }

  lemma OutShrinks(out: seq<Packet>, k: nat, back: seq<Packet>, held: Option<Packet>, kept: Option<Packet>,
                   id: PacketId, m: Option<Message>, n: nat)
    requires k < |out| && Phase(out, back, held, kept, id, m, n)
    ensures Phase(out[..k] + out[k + 1..], back, held, kept, id, m, n)
  {
    var rest := out[..k] + out[k + 1..];
    assert forall i :: 0 <= i < |rest| ==> rest[i] == out[Past(k, i)];
  }

  lemma BackShrinks(out: seq<Packet>, back: seq<Packet>, k: nat, held: Option<Packet>, kept: Option<Packet>,
                    id: PacketId, m: Option<Message>, n: nat)
    requires k < |back| && Phase(out, back, held, kept, id, m, n)
    ensures Phase(out, back[..k] + back[k + 1..], held, kept, id, m, n)
  {
    var rest := back[..k] + back[k + 1..];
    assert forall i :: 0 <= i < |rest| ==> rest[i] == back[Past(k, i)];
  }

  lemma {:induction false} OutGrowsBy(out: seq<Packet>, frames: seq<Packet>, back: seq<Packet>, held: Option<Packet>,
                                      kept: Option<Packet>, id: PacketId, m: Option<Message>, n: nat)
    requires Phase(out, back, held, kept, id, m, n)
    requires forall p :: p in frames ==> MayGoOut(p, held, id, m, n)
    ensures Phase(out + frames, back, held, kept, id, m, n)
  {
    if frames == [] {
      assert out + frames == out;
    } else {
      var before := frames[..|frames| - 1];
      OutGrowsBy(out, before, back, held, kept, id, m, n);
      OutGrows(out + before, frames[|frames| - 1], back, held, kept, id, m, n);
      assert out + frames == out + before + [frames[|frames| - 1]];
    }
  }

  lemma {:induction false} BackGrowsBy(out: seq<Packet>, back: seq<Packet>, frames: seq<Packet>, held: Option<Packet>,
                                       kept: Option<Packet>, id: PacketId, m: Option<Message>, n: nat)
    requires Phase(out, back, held, kept, id, m, n)
    requires forall p :: p in frames ==> MayGoBack(p, out, held, id, m, n)
    ensures Phase(out, back + frames, held, kept, id, m, n)
  {
    if frames == [] {
      assert back + frames == back;
    } else {
      var before := frames[..|frames| - 1];
      BackGrowsBy(out, back, before, held, kept, id, m, n);
      BackGrows(out, back + before, frames[|frames| - 1], held, kept, id, m, n);
      assert back + frames == back + before + [frames[|frames| - 1]];
    }
  }

  // ---------- Sessions ----------

  lemma HeldIsTheEntry(used: seq<Packet>, id: PacketId)
    requires Single(used, id)
    ensures forall p :: p in used && IdOf(p) == id <==> Held(used, id) == Some(p)
  {
    EntriesAreItems(used, id);
  }

  /** A packet that comes back answers a delivered message, in the way of its QoS. */
  lemma Answers(out: seq<Packet>, back: seq<Packet>, p: Packet, held: Option<Packet>, kept: Option<Packet>,
                id: PacketId, m: Option<Message>, n: nat)
    requires Phase(out, back, held, kept, id, m, n) && p in back && Names(p, id)
    ensures m.Some? && n >= 1
    ensures if m.value.args.qos == EXACTLY_ONCE then p == Pubrec(id) || p == Pubcomp(id) else p == Puback(id)
    ensures m.value.args.qos == EXACTLY_ONCE ==> n == 1
  {
  }

  /** A packet that arrives is the message, new exactly when the subscriber keeps no entry at QoS 2, or its PUBREL. */
  lemma Arrives(out: seq<Packet>, back: seq<Packet>, p: Packet, held: Option<Packet>, kept: Option<Packet>,
                id: PacketId, m: Option<Message>, n: nat)
    requires Phase(out, back, held, kept, id, m, n) && p in out && Names(p, id)
    ensures m.Some? && m.value.args.packetId == id && m.value.args.qos in {AT_LEAST_ONCE, EXACTLY_ONCE}
    ensures p == Publish(m.value.args) || p == Pubrel(id)
    ensures m.value.args.qos == EXACTLY_ONCE && p.Publish? ==> n == (if kept == None then 0 else 1)
    ensures m.value.args.qos == AT_LEAST_ONCE ==> p.Publish? && kept == None
  {
  }

  lemma NewMessage(out: seq<Packet>, back: seq<Packet>, held: Option<Packet>, id: PacketId, a: PublishArgs, stored: bool)
    requires !Named(out, id) && !Named(back, id) && Names(Publish(a), id) && a.qos in {AT_LEAST_ONCE, EXACTLY_ONCE}
    requires held == if stored then Some(Publish(a)) else None
    ensures Phase(out, back, held, None, id, Some(Message(a, stored)), 0)
  {
    assert Names(Puback(id), id) && Names(Pubrec(id), id) && Names(Pubrel(id), id) && Names(Pubcomp(id), id);
  }

  /** Once delivered, the publisher may drop its entry or, at QoS 2, turn it into PUBREL. */
  lemma HeldMoves(out: seq<Packet>, back: seq<Packet>, held: Option<Packet>, next: Option<Packet>, kept: Option<Packet>,
                  id: PacketId, m: Option<Message>, n: nat)
    requires Phase(out, back, held, kept, id, m, n) && m.Some? && n >= 1
    requires next == None || (next == Some(Pubrel(id)) && m.value.args.qos == EXACTLY_ONCE)
    ensures Phase(out, back, next, kept, id, m, n)
  {
  }

  lemma FirstDelivery(out: seq<Packet>, back: seq<Packet>, held: Option<Packet>, kept: Option<Packet>,
                      id: PacketId, m: Option<Message>, n: nat)
    requires Phase(out, back, held, kept, id, m, n) && m.Some? && (m.value.args.qos == EXACTLY_ONCE ==> n == 0)
    ensures Phase(out, back, held, if m.value.args.qos == EXACTLY_ONCE then Some(Pubrec(id)) else kept, id, m, n + 1)
  {
  }

  /** The first PUBREL on the channel finds no copy of the message behind it. */
  lemma Released(out: seq<Packet>, back: seq<Packet>, held: Option<Packet>, kept: Option<Packet>,
                 id: PacketId, m: Option<Message>, n: nat)
    requires Phase(out, back, held, kept, id, m, n) && out != [] && out[0] == Pubrel(id)
    ensures m.Some? && m.value.args.qos == EXACTLY_ONCE && n == 1
    ensures Publish(m.value.args) !in out[1..] && held != Some(Publish(m.value.args))
    ensures Phase(out[1..], back, held, None, id, m, n)
  {
    OutShrinks(out, 0, back, held, kept, id, m, n);
    assert out[..0] + out[1..] == out[1..];
    assert Pubrel(id) in out;
    assert forall j :: 0 <= j < |out[1..]| ==> out[1..][j] == out[j + 1];
  }

  // ---------- Every action keeps the invariant ----------

  lemma Logged(log: seq<Happening>, h: Happening, id: PacketId)
    ensures LastSent(log + [h], id) ==
      if h.Sent? && Names(Publish(h.message), id) then Some(Message(h.message, h.stored)) else LastSent(log, id)
    ensures Deliveries(log + [h], id) ==
      if h.Sent? && Names(Publish(h.message), id) then 0
      else Deliveries(log, id) + if h.Delivered? && Names(Publish(h.message), id) then 1 else 0
  {
    assert (log + [h])[..|log|] == log;
  }

  /** What a received packet adds to the log: at most one delivery, of a message that is not being suppressed. */
  lemma Noting(log: seq<Happening>, used: seq<Packet>, e: Event, budget: nat, id: PacketId)
    requires IsReceive(e)
    ensures var after := log + Noted(Notices(used, STILL, e, budget));
      && LastSent(after, id) == LastSent(log, id)
      && Deliveries(after, id) == Deliveries(log, id)
        + if e.RecvPublish? && Names(Publish(e.publish), id) && !(e.publish.qos == EXACTLY_ONCE && Live(used, id)) then 1 else 0
  {
    var noted := Noted(Notices(used, STILL, e, budget));
    if noted == [] {
      assert log + noted == log;
    } else {
      Logged(log, noted[0], id);
    }
  }

  lemma ResendsKeep(c: Config, s: System, act: Action, budget: nat, id: PacketId)
    requires Inv(c, s, id) && (act.PubResends? || act.SubResends?)
    ensures Inv(c, Next(c, s, act, budget), id)
  {
    var held, kept, m, n := Held(s.pub, id), Held(s.sub, id), LastSent(s.log, id), Deliveries(s.log, id);
    assert s.log + [] == s.log;
    if act.PubResends? {
      HeldIsTheEntry(s.pub, id);
      OutGrowsBy(s.out, Accepted(s.pub, budget), s.back, held, kept, id, m, n);
    } else {
      HeldIsTheEntry(s.sub, id);
      BackGrowsBy(s.out, s.back, Accepted(s.sub, budget), held, kept, id, m, n);
    }
  }

  lemma LossKeeps(c: Config, s: System, act: Action, budget: nat, id: PacketId)
    requires Inv(c, s, id) && Enabled(c, s, act) && (act.LoseOut? || act.LoseBack?)
    ensures Inv(c, Next(c, s, act, budget), id)
  {
    var held, kept, m, n := Held(s.pub, id), Held(s.sub, id), LastSent(s.log, id), Deliveries(s.log, id);
    if act.LoseOut? {
      OutShrinks(s.out, act.i, s.back, held, kept, id, m, n);
    } else {
      BackShrinks(s.out, s.back, act.i, held, kept, id, m, n);
    }
  }

  /** Sending stores the message under its id, if there is room and it is not of QoS 0, and touches no other id. */
  lemma SendHeld(c: Config, s: System, a: PublishArgs, id: PacketId)
    requires Single(s.pub, id) && |s.pub| <= c.pubCapacity && Enabled(c, s, SendMessage(a))
    ensures var after, stored := SessionAfter(s.pub, c.pubCapacity, SendPublish(a)), |s.pub| < c.pubCapacity;
      && Single(after, id) && |after| <= c.pubCapacity
      && Held(after, id) == (if Names(Publish(a), id) && stored then Some(Publish(a)) else Held(s.pub, id))
    ensures Names(Publish(a), id) ==>
      && Held(s.pub, id) == Held(s.sub, id) == None && !Named(s.out, id) && !Named(s.back, id)
      && a.qos in {AT_LEAST_ONCE, EXACTLY_ONCE}
  {
    hide Live;
    hide Named;
    hide Single;
    hide Held;
    StepRefinesAutomaton(s.pub, c.pubCapacity, SendPublish(a), id);
    hide SessionAfter;
  }

  lemma NextSent(c: Config, s: System, a: PublishArgs, budget: nat)
    requires Enabled(c, s, SendMessage(a))
    ensures Next(c, s, SendMessage(a), budget) ==
      System(SessionAfter(s.pub, c.pubCapacity, SendPublish(a)), s.sub, s.out + Accepted([Publish(a)], budget), s.back,
             s.log + [Sent(a, |s.pub| < c.pubCapacity)])
  {
    hide SessionAfter;
    hide Accepted;
    hide Enabled;
  }

  lemma SentMayGoOut(a: PublishArgs, budget: nat, held: Option<Packet>, id: PacketId, m: Option<Message>, n: nat)
    requires Names(Publish(a), id) ==> m.Some? && m.value.args == a && n == 0
    ensures forall p :: p in Accepted([Publish(a)], budget) ==> MayGoOut(p, held, id, m, n)
  {
  }

  lemma SendKeeps(c: Config, s: System, a: PublishArgs, budget: nat, id: PacketId)
    requires Inv(c, s, id) && Enabled(c, s, SendMessage(a))
    ensures Inv(c, Next(c, s, SendMessage(a), budget), id)
  {
    var h, t := Sent(a, |s.pub| < c.pubCapacity), Next(c, s, SendMessage(a), budget);
    NextSent(c, s, a, budget);
    SendHeld(c, s, a, id);
    Logged(s.log, h, id);
    var held, kept, m, n := Held(t.pub, id), Held(t.sub, id), LastSent(t.log, id), Deliveries(t.log, id);
    hide Phase;
    hide Named;
    hide LastSent;
    hide Deliveries;
    hide Held;
    hide Single;
    hide SessionAfter;
    hide Next;
    hide Enabled;
    hide MayGoOut;
    if Names(Publish(a), id) {
      NewMessage(s.out, s.back, held, id, a, h.stored);
    }
    SentMayGoOut(a, budget, held, id, m, n);
    OutGrowsBy(s.out, Accepted([Publish(a)], budget), s.back, held, kept, id, m, n);
  }

  /** A packet that does not name the id changes nothing about it, at either side. */
  lemma Elsewhere(used: seq<Packet>, capacity: nat, p: Packet, budget: nat, id: PacketId)
    requires ArrivalOf(p).Some? && !Names(p, id) && Single(used, id) && |used| <= capacity
    ensures var e := ArrivalOf(p).value;
      && Held(SessionAfter(used, capacity, e), id) == Held(used, id)
      && Single(SessionAfter(used, capacity, e), id) && |SessionAfter(used, capacity, e)| <= capacity
      && forall q :: q in Accepted(Attempts(used, STILL, e), budget) ==> !Names(q, id)
  {
    hide Added;
    hide Without;
    hide Held;
    hide FirstWith;
    StepRefinesAutomaton(used, capacity, ArrivalOf(p).value, id);
  }

  lemma PubElsewhere(c: Config, s: System, p: Packet, budget: nat, id: PacketId)
    requires Inv(c, s, id) && ArrivalOf(p).Some? && !Names(p, id)
    ensures Inv(c, PubStep(c, s, ArrivalOf(p).value, budget), id)
  {
    hide Entries;
    hide Single;
    hide Held;
    hide Live;
    hide LastSent;
    hide Deliveries;
    hide Names;
    hide Phase;
    hide SessionAfter;
    hide Attempts;
    hide Notices;
    hide FirstWith;
    var e := ArrivalOf(p).value;
    Elsewhere(s.pub, c.pubCapacity, p, budget, id);
    Noting(s.log, s.pub, e, budget, id);
    OutGrowsBy(s.out, Accepted(Attempts(s.pub, STILL, e), budget), s.back, Held(s.pub, id), Held(s.sub, id), id,
               LastSent(s.log, id), Deliveries(s.log, id));
  }

  lemma PubAnswered(c: Config, s: System, p: Packet, budget: nat, id: PacketId)
    requires Inv(c, s, id) && LastSent(s.log, id).Some? && Deliveries(s.log, id) >= 1
    requires if LastSent(s.log, id).value.args.qos == EXACTLY_ONCE
      then p in {Pubrec(id), Pubcomp(id)} && Deliveries(s.log, id) == 1
      else p == Puback(id)
    ensures Inv(c, PubStep(c, s, ArrivalOf(p).value, budget), id)
  {
    hide Entries;
    hide Single;
    hide Held;
    hide Live;
    hide LastSent;
    hide Deliveries;
    hide Names;
    hide Phase;
    hide SessionAfter;
    hide Notices;
    hide FirstWith;
    var e, m, n, kept := ArrivalOf(p).value, LastSent(s.log, id), Deliveries(s.log, id), Held(s.sub, id);
    var held := Held(SessionAfter(s.pub, c.pubCapacity, e), id);
    StepRefinesAutomaton(s.pub, c.pubCapacity, e, id);
    Noting(s.log, s.pub, e, budget, id);
    HeldMoves(s.out, s.back, Held(s.pub, id), held, kept, id, m, n);
    OutGrowsBy(s.out, Accepted(Attempts(s.pub, STILL, e), budget), s.back, held, kept, id, m, n);
  }

  lemma SubElsewhere(c: Config, s: System, p: Packet, budget: nat, id: PacketId)
    requires Inv(c, s, id) && ArrivalOf(p).Some? && !Names(p, id)
    ensures Inv(c, SubStep(c, s, ArrivalOf(p).value, budget), id)
  {
    hide Entries;
    hide Single;
    hide Held;
    hide Live;
    hide LastSent;
    hide Deliveries;
    hide Names;
    hide Phase;
    hide SessionAfter;
    hide Attempts;
    hide Notices;
    hide FirstWith;
    var e := ArrivalOf(p).value;
    Elsewhere(s.sub, c.subCapacity, p, budget, id);
    Noting(s.log, s.sub, e, budget, id);
    BackGrowsBy(s.out, s.back, Accepted(Attempts(s.sub, STILL, e), budget), Held(s.pub, id), Held(s.sub, id), id,
                LastSent(s.log, id), Deliveries(s.log, id));
  }

  /** The message arrives: delivered when it is new, suppressed at QoS 2 when the subscriber keeps its entry. */
  lemma SubGetsMessage(c: Config, s: System, budget: nat, id: PacketId)
    requires Inv(c, s, id) && LastSent(s.log, id).Some?
    requires var a := LastSent(s.log, id).value.args;
      && a.packetId == id && a.qos in {AT_LEAST_ONCE, EXACTLY_ONCE}
      && (a.qos == EXACTLY_ONCE ==> Live(s.sub, id) || |s.sub| < c.subCapacity)
      && (a.qos == EXACTLY_ONCE ==> Deliveries(s.log, id) == if Held(s.sub, id) == None then 0 else 1)
    ensures Inv(c, SubStep(c, s, RecvPublish(LastSent(s.log, id).value.args), budget), id)
  {
    hide Entries;
    hide Single;
    hide Held;
    hide Live;
    hide LastSent;
    hide Deliveries;
    hide Names;
    hide Phase;
    hide SessionAfter;
    hide FirstWith;
    var held, kept, m, n := Held(s.pub, id), Held(s.sub, id), LastSent(s.log, id), Deliveries(s.log, id);
    var e := RecvPublish(m.value.args);
    var now := Held(SessionAfter(s.sub, c.subCapacity, e), id);
    StepRefinesAutomaton(s.sub, c.subCapacity, e, id);
    Noting(s.log, s.sub, e, budget, id);
    if m.value.args.qos == EXACTLY_ONCE && kept.Some? {
      BackGrowsBy(s.out, s.back, Accepted([Pubrec(id)], budget), held, kept, id, m, n);
    } else {
      FirstDelivery(s.out, s.back, held, kept, id, m, n);
      BackGrowsBy(s.out, s.back, Accepted(Attempts(s.sub, STILL, e), budget), held, now, id, m, n + 1);
    }
  }

  lemma SubGetsPubrel(c: Config, s: System, budget: nat, id: PacketId)
    requires |s.pub| <= c.pubCapacity && |s.sub| <= c.subCapacity && Single(s.pub, id) && Single(s.sub, id)
    requires Phase(s.out, s.back, Held(s.pub, id), None, id, LastSent(s.log, id), Deliveries(s.log, id))
    requires LastSent(s.log, id).Some? && Deliveries(s.log, id) == 1
    requires var a := LastSent(s.log, id).value.args;
      a.qos == EXACTLY_ONCE && Publish(a) !in s.out && Held(s.pub, id) != Some(Publish(a))
    ensures Inv(c, SubStep(c, s, RecvPubrel(id), budget), id)
  {
    hide Entries;
    hide Single;
    hide Held;
    hide Live;
    hide LastSent;
    hide Deliveries;
    hide Names;
    hide Phase;
    hide SessionAfter;
    hide FirstWith;
    StepRefinesAutomaton(s.sub, c.subCapacity, RecvPubrel(id), id);
    Noting(s.log, s.sub, RecvPubrel(id), budget, id);
    BackGrowsBy(s.out, s.back, Accepted([Pubcomp(id)], budget), Held(s.pub, id), None, id,
                LastSent(s.log, id), Deliveries(s.log, id));
  }

  lemma PubReceivesKeeps(c: Config, s: System, budget: nat, id: PacketId)
    requires Inv(c, s, id) && s.back != []
    ensures Inv(c, Next(c, s, PubReceives, budget), id)
  {
    hide Phase;
    var p, t := s.back[0], s.(back := s.back[1..]);
    var held, kept, m, n := Held(s.pub, id), Held(s.sub, id), LastSent(s.log, id), Deliveries(s.log, id);
    BackShrinks(s.out, s.back, 0, held, kept, id, m, n);
    assert s.back[..0] + s.back[1..] == t.back;
    if Names(p, id) {
      Answers(s.out, s.back, p, held, kept, id, m, n);
      PubAnswered(c, t, p, budget, id);
    } else if ArrivalOf(p).Some? {
      PubElsewhere(c, t, p, budget, id);
    }
  }

  lemma SubReceivesKeeps(c: Config, s: System, budget: nat, id: PacketId)
    requires Inv(c, s, id) && Enabled(c, s, SubReceives)
    ensures Inv(c, Next(c, s, SubReceives, budget), id)
  {
    hide Phase;
    var p, t := s.out[0], s.(out := s.out[1..]);
    var held, kept, m, n := Held(s.pub, id), Held(s.sub, id), LastSent(s.log, id), Deliveries(s.log, id);
    OutShrinks(s.out, 0, s.back, held, kept, id, m, n);
    assert s.out[..0] + s.out[1..] == t.out;
    if !Names(p, id) {
      if ArrivalOf(p).Some? {
        SubElsewhere(c, t, p, budget, id);
      }
    } else if p == Pubrel(id) {
      Released(s.out, s.back, held, kept, id, m, n);
      SubGetsPubrel(c, t, budget, id);
    } else {
      Arrives(s.out, s.back, p, held, kept, id, m, n);
      SubGetsMessage(c, t, budget, id);
    }
  }

  lemma NextKeeps(c: Config, s: System, act: Action, budget: nat, id: PacketId)
    requires Inv(c, s, id) && Enabled(c, s, act)
    ensures Inv(c, Next(c, s, act, budget), id)
  {
    match act
    case SendMessage(a) => SendKeeps(c, s, a, budget, id);
    case SubReceives => SubReceivesKeeps(c, s, budget, id);
    case PubReceives => PubReceivesKeeps(c, s, budget, id);
    case SubResends => ResendsKeep(c, s, act, budget, id);
    case PubResends => ResendsKeep(c, s, act, budget, id);
    case LoseOut(_) => LossKeeps(c, s, act, budget, id);
    case LoseBack(_) => LossKeeps(c, s, act, budget, id);
  }

  ghost predicate GrowsWell(log: seq<Happening>, after: seq<Happening>) {
    after == log || (exists h :: after == log + [h] && GoodAt(log, h))
  }

  /** What an arriving packet can add to the log. */
  lemma NotedArrival(used: seq<Packet>, p: Packet, budget: nat)
    requires ArrivalOf(p).Some?
    ensures var noted := Noted(Notices(used, STILL, ArrivalOf(p).value, budget));
      || noted == []
      || (noted == [Completed(IdOf(p))] && (p.Puback? || p.Pubcomp?))
      || (p.Publish? && noted == [Delivered(p.publish)] && (p.publish.qos == EXACTLY_ONCE ==> !Live(used, IdOf(p))))
    ensures p.Publish? && p.publish.qos != EXACTLY_ONCE ==>
      Noted(Notices(used, STILL, ArrivalOf(p).value, budget)) == [Delivered(p.publish)]
  {
  }

  lemma GrowsByNoted(log: seq<Happening>, noted: seq<Happening>)
    requires noted == [] || (|noted| == 1 && GoodAt(log, noted[0]))
    ensures GrowsWell(log, log + noted)
  {
    if noted == [] {
      assert log + noted == log;
    } else {
      assert noted == [noted[0]];
    }
  }

  lemma SubLogsGood(c: Config, s: System, budget: nat)
    requires (forall id :: Inv(c, s, id)) && Enabled(c, s, SubReceives)
    ensures GrowsWell(s.log, Next(c, s, SubReceives, budget).log)
  {
    var p, id := s.out[0], IdOf(s.out[0]);
    assert Inv(c, s, id);
    hide Inv;
    if Names(p, id) {
      Arrives(s.out, s.back, p, Held(s.pub, id), Held(s.sub, id), id, LastSent(s.log, id), Deliveries(s.log, id));
    }
    hide Phase;
    hide LastSent;
    hide Deliveries;
    hide SessionAfter;
    hide Attempts;
    hide Held;
    hide Live;
    hide GrowsWell;
    hide Notices;
    hide Noted;
    if ArrivalOf(p).Some? {
      NotedArrival(s.sub, p, budget);
      GrowsByNoted(s.log, Noted(Notices(s.sub, STILL, ArrivalOf(p).value, budget)));
    } else {
      GrowsByNoted(s.log, []);
      assert s.log + [] == s.log;
    }
  }

  lemma PubLogsGood(c: Config, s: System, budget: nat)
    requires (forall id :: Inv(c, s, id)) && Enabled(c, s, PubReceives)
    ensures GrowsWell(s.log, Next(c, s, PubReceives, budget).log)
  {
    var p, id := s.back[0], IdOf(s.back[0]);
    assert Inv(c, s, id);
    hide Inv;
    if Names(p, id) {
      Answers(s.out, s.back, p, Held(s.pub, id), Held(s.sub, id), id, LastSent(s.log, id), Deliveries(s.log, id));
    }
    hide Phase;
    hide LastSent;
    hide Deliveries;
    hide SessionAfter;
    hide Attempts;
    hide Held;
    hide Live;
    hide GrowsWell;
    hide Notices;
    hide Noted;
    if ArrivalOf(p).Some? {
      NotedArrival(s.pub, p, budget);
      GrowsByNoted(s.log, Noted(Notices(s.pub, STILL, ArrivalOf(p).value, budget)));
    } else {
      GrowsByNoted(s.log, []);
      assert s.log + [] == s.log;
    }
  }

  /** Whatever one action adds to the log is good: this is where deliveries and completions are judged. */
  lemma NextLogsGood(c: Config, s: System, act: Action, budget: nat)
    requires (forall id :: Inv(c, s, id)) && Enabled(c, s, act)
    ensures GrowsWell(s.log, Next(c, s, act, budget).log)
  {
    assert s.log + [] == s.log;
    match act
    case SendMessage(a) => assert GoodAt(s.log, Sent(a, |s.pub| < c.pubCapacity));
    case SubReceives => SubLogsGood(c, s, budget);
    case PubReceives => PubLogsGood(c, s, budget);
    case _ =>
  }

  // ---------- Every run ----------

  datatype Step = Step(act: Action, budget: nat)

  /** An action that is not enabled when its turn comes does not happen. */
  function Done(c: Config, s: System, step: Step): System {
    if Enabled(c, s, step.act) then Next(c, s, step.act, step.budget) else s
  }

  /** The system after a run. */
  function Exec(c: Config, steps: seq<Step>): System {
    if steps == [] then START else Done(c, Exec(c, steps[..|steps| - 1]), steps[|steps| - 1])
  }

  /** In every run every delivery and every completion is good. */
  lemma {:induction false} EveryRunIsGood(c: Config, steps: seq<Step>)
    ensures GoodLog(Exec(c, steps).log)
    ensures forall id :: Inv(c, Exec(c, steps), id)
  {
    if steps != [] {
      var s, last := Exec(c, steps[..|steps| - 1]), steps[|steps| - 1];
      EveryRunIsGood(c, steps[..|steps| - 1]);
      if Enabled(c, s, last.act) {
        var t := Next(c, s, last.act, last.budget);
        forall id ensures Inv(c, t, id) {
          NextKeeps(c, s, last.act, last.budget, id);
        }
        NextLogsGood(c, s, last.act, last.budget);
        if t.log != s.log {
          var h :| t.log == s.log + [h] && GoodAt(s.log, h);
          assert forall i :: 0 <= i <= |s.log| ==> t.log[..i] == s.log[..i];
        }
      }
    }
  }

  /** Each QoS 2 message is delivered at most once. */
  lemma AtMostOnce(c: Config, steps: seq<Step>, id: PacketId)
    ensures var log := Exec(c, steps).log;
      LastSent(log, id).Some? && LastSent(log, id).value.args.qos == EXACTLY_ONCE ==> Deliveries(log, id) <= 1
  {
    EveryRunIsGood(c, steps);
    assert Inv(c, Exec(c, steps), id);
  }

  /** A message above QoS 0 that was stored and not yet delivered is still held, so every PINGRESP tries it again. */
  lemma NothingStoredIsLost(c: Config, steps: seq<Step>, id: PacketId)
    ensures var s := Exec(c, steps); var m := LastSent(s.log, id);
      m.Some? && m.value.stored && Deliveries(s.log, id) == 0 ==>
        Publish(m.value.args) in Attempts(s.pub, STILL, RecvPingresp)
  {
    EveryRunIsGood(c, steps);
    hide Exec;
    assert Inv(c, Exec(c, steps), id);
    HeldIsTheEntry(Exec(c, steps).pub, id);
    hide Single;
    hide Held;
    hide GoodLog;
  }
}
