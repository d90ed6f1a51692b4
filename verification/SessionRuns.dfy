/** What every event, and every run of events, keeps of the session store. */
module SessionRuns {
  import opened MqttTypes
  import opened SessionSpec
  import opened ManagerSpec
  import opened Options

  /** The session after a run of events; an initialised store starts from no items. */
  function Run(used: seq<Packet>, capacity: nat, trace: seq<Event>): seq<Packet> {
    if trace == [] then used
    else SessionAfter(Run(used, capacity, trace[..|trace| - 1]), capacity, trace[|trace| - 1])
  }

  // ---------- The entries of one packet id ----------

  /** All entries of an id, in list order. */
  function Entries(used: seq<Packet>, id: PacketId): (entries: seq<Packet>)
    ensures entries == [] <==> !Live(used, id)
  {
    if used == [] then []
    else
      assert Live(used, id) <==> IdOf(used[0]) == id || Live(used[1..], id) by { LiveUnfolds(used, id); }
      (if IdOf(used[0]) == id then [used[0]] else []) + Entries(used[1..], id)
  }

  lemma LiveUnfolds(used: seq<Packet>, id: PacketId)
    requires used != []
    ensures Live(used, id) <==> IdOf(used[0]) == id || Live(used[1..], id)
  {
    if Live(used, id) {
      var i :| 0 <= i < |used| && IdOf(used[i]) == id;
      assert i > 0 ==> used[1..][i - 1] == used[i];
    }
  }

  lemma {:induction false} EntriesAreItems(used: seq<Packet>, id: PacketId)
    ensures forall p :: p in Entries(used, id) <==> p in used && IdOf(p) == id
  {
    if used != [] {
      EntriesAreItems(used[1..], id);
    }
  }

  function Dropped(entries: seq<Packet>): seq<Packet> {
    if entries == [] then [] else entries[1..]
  }

  /** What an event does to the entries of one id: acknowledgements drop the oldest, whatever it is. */
  function NextEntries(entries: seq<Packet>, room: bool, e: Event, id: PacketId): seq<Packet> {
    match e
    case SendSubscribe(a) => if a.packetId == id && room then entries + [Subscribe(a)] else entries
    case SendUnsubscribe(a) => if a.packetId == id && room then entries + [Unsubscribe(a)] else entries
    case SendPublish(a) =>
      if a.packetId != id then entries
      else
        var stored := if room then entries + [Publish(a)] else entries;
        if a.qos == AT_MOST_ONCE then Dropped(stored) else stored
    case RecvPublish(a) =>
      if a.packetId == id && a.qos == EXACTLY_ONCE && entries == [] && room then [Pubrec(id)] else entries
    case RecvPubrec(i) =>
      if i != id then entries
      else if |entries| > 1 then Dropped(entries)
      else if |entries| == 1 || room then [Pubrel(id)]
      else []
    case RecvSuback(i) => if i == id then Dropped(entries) else entries
    case RecvUnsuback(i) => if i == id then Dropped(entries) else entries
    case RecvPuback(i) => if i == id then Dropped(entries) else entries
    case RecvPubrel(i) => if i == id then Dropped(entries) else entries
    case RecvPubcomp(i) => if i == id then Dropped(entries) else entries
    case _ => entries
  }

  lemma {:induction false} AppendedEntries(used: seq<Packet>, p: Packet, id: PacketId)
    ensures Entries(used + [p], id) == Entries(used, id) + if IdOf(p) == id then [p] else []
  {
    if used != [] {
      assert (used + [p])[1..] == used[1..] + [p];
      AppendedEntries(used[1..], p, id);
    }
  }

  lemma AddedEntries(used: seq<Packet>, capacity: nat, p: Packet, id: PacketId)
    requires Tracked(TypeOf(p))
    ensures Entries(Added(used, capacity, p), id)
      == if IdOf(p) == id && |used| < capacity then Entries(used, id) + [p] else Entries(used, id)
  {
    AppendedEntries(used, p, id);
  }

  lemma WithoutUnfolds(used: seq<Packet>, gone: PacketId)
    requires used != []
    ensures Without(used, gone) == if IdOf(used[0]) == gone then used[1..] else [used[0]] + Without(used[1..], gone)
  {
    LiveUnfolds(used, gone);
  }

  lemma EntriesUnfold(used: seq<Packet>, id: PacketId)
    requires used != []
    ensures Entries(used, id) == (if IdOf(used[0]) == id then [used[0]] else []) + Entries(used[1..], id)
  {
  }

  lemma FirstIsDropped(used: seq<Packet>, id: PacketId)
    requires used != []
    ensures Entries(used[1..], id) == if IdOf(used[0]) == id then Dropped(Entries(used, id)) else Entries(used, id)
  {
    EntriesUnfold(used, id);
  }

  lemma {:induction false} WithoutEntries(used: seq<Packet>, gone: PacketId, id: PacketId)
    ensures Entries(Without(used, gone), id) == if gone == id then Dropped(Entries(used, id)) else Entries(used, id)
    ensures |Without(used, gone)| == |used| - if Live(used, gone) then 1 else 0
  {
    if used == [] {
      assert Without(used, gone) == used;
    } else {
      EntriesUnfold(used, id);
      LiveUnfolds(used, gone);
      WithoutUnfolds(used, gone);
      if IdOf(used[0]) == gone {
        FirstIsDropped(used, id);
      } else {
        WithoutEntries(used[1..], gone, id);
        EntriesUnfold([used[0]] + Without(used[1..], gone), id);
        hide *;
      }
    }
  }

  /** Every event does to the entries of every id what `NextEntries` says, whatever the session holds. */
  lemma StepRefinesEntries(used: seq<Packet>, capacity: nat, e: Event, id: PacketId)
    requires |used| <= capacity
    ensures Entries(SessionAfter(used, capacity, e), id) == NextEntries(Entries(used, id), |used| < capacity, e, id)
  {
    hide Entries;
    hide Added;
    hide Without;
    hide Live;
    hide FirstWith;
    match e
    case SendSubscribe(a) => AddedEntries(used, capacity, Subscribe(a), id);
    case SendUnsubscribe(a) => AddedEntries(used, capacity, Unsubscribe(a), id);
    case SendPublish(a) =>
      AddedEntries(used, capacity, Publish(a), id);
      WithoutEntries(Added(used, capacity, Publish(a)), a.packetId, id);
    case RecvPublish(a) => AddedEntries(used, capacity, Pubrec(a.packetId), id);
    case RecvPubrec(i) =>
      WithoutEntries(used, i, id);
      AddedEntries(Without(used, i), capacity, Pubrel(i), id);
    case RecvSuback(i) => WithoutEntries(used, i, id);
    case RecvUnsuback(i) => WithoutEntries(used, i, id);
    case RecvPuback(i) => WithoutEntries(used, i, id);
    case RecvPubrel(i) => WithoutEntries(used, i, id);
    case RecvPubcomp(i) => WithoutEntries(used, i, id);
    case _ =>
  }

  lemma StepWithinCapacity(used: seq<Packet>, capacity: nat, e: Event)
    requires |used| <= capacity
    ensures |SessionAfter(used, capacity, e)| <= capacity
  {
    hide FirstWith;
    hide Live;
  }

  lemma {:induction false} RunWithinCapacity(capacity: nat, trace: seq<Event>)
    ensures |Run([], capacity, trace)| <= capacity
  {
    if trace != [] {
      var before := trace[..|trace| - 1];
      RunWithinCapacity(capacity, before);
      StepWithinCapacity(Run([], capacity, before), capacity, trace[|trace| - 1]);
    }
  }

  /** The entries of one id after a run, from the events that name the id and from whether they found room. */
  function EntriesAfter(capacity: nat, trace: seq<Event>, id: PacketId): seq<Packet> {
    if trace == [] then []
    else
      var before := trace[..|trace| - 1];
      NextEntries(EntriesAfter(capacity, before, id), |Run([], capacity, before)| < capacity, trace[|trace| - 1], id)
  }

  lemma {:induction false} RunRefinesEntries(capacity: nat, trace: seq<Event>, id: PacketId)
    ensures Entries(Run([], capacity, trace), id) == EntriesAfter(capacity, trace, id)
  {
    if trace != [] {
      var before := trace[..|trace| - 1];
      RunRefinesEntries(capacity, before, id);
      RunWithinCapacity(capacity, before);
      StepRefinesEntries(Run([], capacity, before), capacity, trace[|trace| - 1], id);
    }
  }

  // ---------- An id that is sent only when it is not live ----------

  /** At most one entry carries this id. */
  ghost predicate Single(used: seq<Packet>, id: PacketId) {
    |Entries(used, id)| <= 1
  }

  function SentId(e: Event): Option<PacketId> {
    match e
    case SendSubscribe(a) => Some(a.packetId)
    case SendUnsubscribe(a) => Some(a.packetId)
    case SendPublish(a) => Some(a.packetId)
    case _ => None
  }

  /** A packet sent under this id finds it not live. */
  predicate FreshFor(used: seq<Packet>, e: Event, id: PacketId) {
    SentId(e) == Some(id) ==> !Live(used, id)
  }

  ghost predicate FreshRun(capacity: nat, trace: seq<Event>, id: PacketId) {
    forall i :: 0 <= i < |trace| ==> FreshFor(Run([], capacity, trace[..i]), trace[i], id)
  }

  /** The first entry of an id. */
  function Held(used: seq<Packet>, id: PacketId): (held: Option<Packet>)
    ensures held.Some? <==> Live(used, id)
  {
    var entries := Entries(used, id);
    if entries == [] then None else Some(entries[0])
  }

  /**
   What an event does to the one entry of an id: any acknowledgement empties it whatever its type is,
   and PUBREC turns a held entry into PUBREL without needing room.
   */
  function NextHeld(held: Option<Packet>, room: bool, e: Event, id: PacketId): Option<Packet> {
    match e
    case SendSubscribe(a) => if a.packetId == id && room then Some(Subscribe(a)) else held
    case SendUnsubscribe(a) => if a.packetId == id && room then Some(Unsubscribe(a)) else held
    case SendPublish(a) => if a.packetId == id && room && a.qos != AT_MOST_ONCE then Some(Publish(a)) else held
    case RecvPublish(a) =>
      if a.packetId == id && a.qos == EXACTLY_ONCE && held == None && room then Some(Pubrec(id)) else held
    case RecvPubrec(i) => if i == id && (held.Some? || room) then Some(Pubrel(id)) else held
    case RecvSuback(i) => if i == id then None else held
    case RecvUnsuback(i) => if i == id then None else held
    case RecvPuback(i) => if i == id then None else held
    case RecvPubrel(i) => if i == id then None else held
    case RecvPubcomp(i) => if i == id then None else held
    case _ => held
  }

  function AsEntries(held: Option<Packet>): seq<Packet> {
    if held == None then [] else [held.value]
  }

  /** `NextHeld` is the case of a single entry whose id is sent only when not live. */
  lemma NextHeldIsNextEntries(held: Option<Packet>, room: bool, e: Event, id: PacketId)
    requires SentId(e) == Some(id) ==> held == None
    ensures NextEntries(AsEntries(held), room, e, id) == AsEntries(NextHeld(held, room, e, id))
  {
  }

  lemma SentIsNotHeld(used: seq<Packet>, e: Event, id: PacketId)
    requires FreshFor(used, e, id)
    ensures SentId(e) == Some(id) ==> Held(used, id) == None
  {
  }

  lemma SingleIsHeld(used: seq<Packet>, id: PacketId, held: Option<Packet>)
    ensures Single(used, id) && Held(used, id) == held <==> Entries(used, id) == AsEntries(held)
  {
  }

  /** Every event steps the automaton of every packet id, and keeps at most one entry under it. */
  lemma StepRefinesAutomaton(used: seq<Packet>, capacity: nat, e: Event, id: PacketId)
    requires Single(used, id) && |used| <= capacity && FreshFor(used, e, id)
    ensures Single(SessionAfter(used, capacity, e), id) && |SessionAfter(used, capacity, e)| <= capacity
    ensures Held(SessionAfter(used, capacity, e), id) == NextHeld(Held(used, id), |used| < capacity, e, id)
  {
    hide *;
    var held, room, after := Held(used, id), |used| < capacity, SessionAfter(used, capacity, e);
    StepRefinesEntries(used, capacity, e, id);
    StepWithinCapacity(used, capacity, e);
    SingleIsHeld(used, id, held);
    SentIsNotHeld(used, e, id);
    NextHeldIsNextEntries(held, room, e, id);
    SingleIsHeld(after, id, NextHeld(held, room, e, id));
  }

  /** Over any run in which an id is never sent while live, it never has two entries. */
  lemma {:induction false} RunSingle(capacity: nat, trace: seq<Event>, id: PacketId)
    requires FreshRun(capacity, trace, id)
    ensures Single(Run([], capacity, trace), id)
  {
    if trace != [] {
      var before := trace[..|trace| - 1];
      assert forall i :: 0 <= i < |before| ==> before[..i] == trace[..i];
      RunSingle(capacity, before, id);
      RunWithinCapacity(capacity, before);
      StepRefinesAutomaton(Run([], capacity, before), capacity, trace[|trace| - 1], id);
    }
  }

  // ---------- Outgoing QoS 2 ----------

  /** The acknowledgements that do not belong to an outgoing QoS 2 publish. */
  predicate ForeignAck(e: Event, id: PacketId) {
    e in {RecvSuback(id), RecvUnsuback(id), RecvPuback(id), RecvPubrel(id)}
  }

  /** An acknowledgement that an outgoing QoS 2 publish does not wait for: a foreign one, or PUBCOMP before any PUBREC. */
  predicate OutOfTurn(e: Event, id: PacketId, released: bool) {
    ForeignAck(e, id) || (e == RecvPubcomp(id) && !released)
  }

  lemma StagesOfAutomaton(held: Option<Packet>, room: bool, e: Event, a: PublishArgs)
    requires SentId(e) == Some(a.packetId) ==> held == None
    ensures var id, after := a.packetId, NextHeld(held, room, e, a.packetId);
      && (held == Some(Publish(a)) ==>
            after == if OutOfTurn(e, id, false) then None else if e == RecvPubrec(id) then Some(Pubrel(id)) else held)
      && (held == Some(Pubrel(id)) ==>
            after == if OutOfTurn(e, id, true) || e == RecvPubcomp(id) then None else held)
  {
  }

  /**
   One event at a stored PUBLISH or PUBREL.  PUBREC and PUBCOMP move the entry to PUBREL and to gone,
   and it leaves that path exactly on an acknowledgement out of turn, which drops it at once.
   */
  lemma OutgoingStages(used: seq<Packet>, capacity: nat, e: Event, a: PublishArgs)
    requires Single(used, a.packetId) && |used| <= capacity && FreshFor(used, e, a.packetId)
    ensures var id := a.packetId;
      var held, after := Held(used, id), Held(SessionAfter(used, capacity, e), id);
      && (held == Some(Publish(a)) ==>
            && (after in {Some(Publish(a)), Some(Pubrel(id))} <==> !OutOfTurn(e, id, false))
            && (after == Some(Pubrel(id)) <==> e == RecvPubrec(id))
            && (after == None <==> OutOfTurn(e, id, false)))
      && (held == Some(Pubrel(id)) ==>
            && (after == Some(Pubrel(id)) <==> !OutOfTurn(e, id, true) && e != RecvPubcomp(id))
            && (after == None <==> OutOfTurn(e, id, true) || e == RecvPubcomp(id)))
  {
    StepRefinesAutomaton(used, capacity, e, a.packetId);
    StagesOfAutomaton(Held(used, a.packetId), |used| < capacity, e, a);
    hide NextHeld;
    hide OutOfTurn;
    hide SessionAfter;
    hide Single;
    hide Held;
  }

  /**
   Where the stages fail: PUBACK, SUBACK, UNSUBACK, PUBREL or an early PUBCOMP with the id of a
   stored QoS 2 publish takes it straight out, and a PUBACK or PUBCOMP even reports it as published.
   */
  lemma EarlyAckDropsPublish(capacity: nat, a: PublishArgs, e: Event, h: Heartbeat, budget: nat)
    requires capacity >= 1 && a.qos == EXACTLY_ONCE && OutOfTurn(e, a.packetId, false)
    ensures FreshRun(capacity, [SendPublish(a), e], a.packetId)
    ensures Run([], capacity, [SendPublish(a)]) == [Publish(a)]
    ensures Run([], capacity, [SendPublish(a), e]) == []
    ensures e in {RecvPuback(a.packetId), RecvPubcomp(a.packetId)} ==>
      Notices([Publish(a)], h, e, budget) == [Published(a.packetId)]
  {
    var trace := [SendPublish(a), e];
    assert trace[..0] == [] && trace[..1] == [SendPublish(a)];
    assert [SendPublish(a)][..0] == [];
    assert Without([Publish(a)], a.packetId) == [];
  }

  ghost predicate Between(trace: seq<Event>, from: nat, to: nat, e: Event) {
    exists i :: from <= i < to <= |trace| && trace[i] == e
  }

  /** After the send at `sent`, and before event `to`, a PUBREC and then a PUBCOMP came. */
  ghost predicate Completed(trace: seq<Event>, sent: nat, to: nat, id: PacketId) {
    exists i :: sent < i < to <= |trace| && trace[i] == RecvPubcomp(id) && Between(trace, sent + 1, i, RecvPubrec(id))
  }

  /** No acknowledgement comes out of turn until the publish sent at `sent` is complete. */
  ghost predicate InTurn(trace: seq<Event>, sent: nat, id: PacketId) {
    forall i :: sent < i < |trace| && !Completed(trace, sent, i, id) ==>
      !OutOfTurn(trace[i], id, Between(trace, sent + 1, i, RecvPubrec(id)))
  }

  ghost predicate InStage(capacity: nat, trace: seq<Event>, sent: nat, k: nat, a: PublishArgs)
    requires k <= |trace|
  {
    Held(Run([], capacity, trace[..k]), a.packetId)
      == Some(if Between(trace, sent + 1, k, RecvPubrec(a.packetId)) then Pubrel(a.packetId) else Publish(a))
  }

  /** The publish sent at `sent` is held as PUBLISH until the first PUBREC and then as PUBREL until the next PUBCOMP. */
  ghost predicate StaysInStage(capacity: nat, trace: seq<Event>, sent: nat, a: PublishArgs) {
    forall k :: sent < k <= |trace| && !Completed(trace, sent, k, a.packetId) ==> InStage(capacity, trace, sent, k, a)
  }

  /** The publish at `sent` is a QoS 2 one that found room, in a run that never sends its id while live. */
  ghost predicate Stored(capacity: nat, trace: seq<Event>, sent: nat, a: PublishArgs) {
    && FreshRun(capacity, trace, a.packetId)
    && sent < |trace| && trace[sent] == SendPublish(a) && a.qos == EXACTLY_ONCE
    && |Run([], capacity, trace[..sent])| < capacity
  }

  lemma BeforeEvent(capacity: nat, trace: seq<Event>, k: nat, id: PacketId)
    requires FreshRun(capacity, trace, id) && k < |trace|
    ensures var used := Run([], capacity, trace[..k]);
      && Single(used, id) && |used| <= capacity && FreshFor(used, trace[k], id)
      && Run([], capacity, trace[..k + 1]) == SessionAfter(used, capacity, trace[k])
  {
    assert forall i :: 0 <= i < k ==> trace[..k][..i] == trace[..i];
    RunSingle(capacity, trace[..k], id);
    RunWithinCapacity(capacity, trace[..k]);
    assert trace[..k + 1][..k] == trace[..k];
  }

  lemma OneMoreEvent(trace: seq<Event>, sent: nat, k: nat, id: PacketId)
    requires sent < k < |trace| && !Completed(trace, sent, k, id)
    ensures Between(trace, sent + 1, k + 1, RecvPubrec(id)) <==>
      Between(trace, sent + 1, k, RecvPubrec(id)) || trace[k] == RecvPubrec(id)
    ensures Completed(trace, sent, k + 1, id) <==>
      trace[k] == RecvPubcomp(id) && Between(trace, sent + 1, k, RecvPubrec(id))
  {
  }

  /** One event of the run: in its stage before, the entry is in its stage afterwards unless the event was out of turn, and gone once complete. */
  lemma StageStep(capacity: nat, trace: seq<Event>, sent: nat, k: nat, a: PublishArgs)
    requires Stored(capacity, trace, sent, a) && sent < k < |trace|
    requires !Completed(trace, sent, k, a.packetId) && InStage(capacity, trace, sent, k, a)
    ensures var out := OutOfTurn(trace[k], a.packetId, Between(trace, sent + 1, k, RecvPubrec(a.packetId)));
      && (out ==> !Completed(trace, sent, k + 1, a.packetId) && !InStage(capacity, trace, sent, k + 1, a))
      && (!out && !Completed(trace, sent, k + 1, a.packetId) ==> InStage(capacity, trace, sent, k + 1, a))
      && (Completed(trace, sent, k + 1, a.packetId) ==> Held(Run([], capacity, trace[..k + 1]), a.packetId) == None)
  {
    hide SessionAfter;
    hide Run;
    hide Held;
    hide Single;
    hide Live;
    BeforeEvent(capacity, trace, k, a.packetId);
    OutgoingStages(Run([], capacity, trace[..k]), capacity, trace[k], a);
    OneMoreEvent(trace, sent, k, a.packetId);
    hide Between;
    hide Completed;
    hide FreshRun;
  }

  lemma {:induction false} StageReached(capacity: nat, trace: seq<Event>, sent: nat, k: nat, a: PublishArgs)
    requires Stored(capacity, trace, sent, a) && InTurn(trace, sent, a.packetId)
    requires sent < k <= |trace| && !Completed(trace, sent, k, a.packetId)
    ensures InStage(capacity, trace, sent, k, a)
  {
    hide SessionAfter;
    hide Run;
    hide Single;
    hide Held;
    hide Live;
    if k == sent + 1 {
      hide Completed;
      BeforeEvent(capacity, trace, sent, a.packetId);
      StepRefinesAutomaton(Run([], capacity, trace[..sent]), capacity, trace[sent], a.packetId);
    } else {
      assert !Completed(trace, sent, k - 1, a.packetId);
      hide Completed;
      hide Between;
      hide InStage;
      StageReached(capacity, trace, sent, k - 1, a);
      StageStep(capacity, trace, sent, k - 1, a);
    }
  }

  /**
   Over every run: a stored QoS 2 publish is PUBLISH until its first PUBREC and PUBREL until the next
   PUBCOMP if and only if no acknowledgement comes out of turn, and the PUBCOMP then takes it out.
   */
  lemma OutgoingRun(capacity: nat, trace: seq<Event>, sent: nat, a: PublishArgs)
    requires Stored(capacity, trace, sent, a)
    ensures StaysInStage(capacity, trace, sent, a) <==> InTurn(trace, sent, a.packetId)
    ensures InTurn(trace, sent, a.packetId) ==>
      forall k :: sent < k < |trace| && !Completed(trace, sent, k, a.packetId) && Completed(trace, sent, k + 1, a.packetId) ==>
        Held(Run([], capacity, trace[..k + 1]), a.packetId) == None
  {
    var id := a.packetId;
    if InTurn(trace, sent, id) {
      forall k | sent < k <= |trace| && !Completed(trace, sent, k, id)
        ensures InStage(capacity, trace, sent, k, a)
        ensures k < |trace| && Completed(trace, sent, k + 1, id) ==> Held(Run([], capacity, trace[..k + 1]), id) == None
      {
        StageReached(capacity, trace, sent, k, a);
        if k < |trace| {
          StageStep(capacity, trace, sent, k, a);
        }
      }
    } else if StaysInStage(capacity, trace, sent, a) {
      var i :| sent < i < |trace| && !Completed(trace, sent, i, id)
        && OutOfTurn(trace[i], id, Between(trace, sent + 1, i, RecvPubrec(id)));
      StageStep(capacity, trace, sent, i, a);
      assert false;
    }
  }

  /** A duplicate PUBREC changes what no id holds; a PUBREC for a live id always finds room for its PUBREL. */
  lemma PubrecKeepsTheLiveIds(used: seq<Packet>, capacity: nat, id: PacketId, other: PacketId)
    requires Single(used, id) && Single(used, other) && |used| <= capacity && Live(used, id)
    ensures var after := SessionAfter(used, capacity, RecvPubrec(id));
      && |after| == |used|
      && Held(after, id) == Some(Pubrel(id))
      && (other != id ==> Held(after, other) == Held(used, other))
  {
    StepRefinesAutomaton(used, capacity, RecvPubrec(id), id);
    StepRefinesAutomaton(used, capacity, RecvPubrec(id), other);
    WithoutEntries(used, id, id);
  }

  // ---------- Incoming QoS 2 ----------

  /** Inbound ids carry only QoS 2 PUBLISH and PUBREL; every other event that names an id names an outbound one. */
  predicate Directed(inbound: set<PacketId>, e: Event) {
    match e
    case RecvPublish(a) => a.qos == EXACTLY_ONCE ==> a.packetId in inbound
    case RecvPubrel(id) => id in inbound
    case RecvSuback(id) => id !in inbound
    case RecvUnsuback(id) => id !in inbound
    case RecvPuback(id) => id !in inbound
    case RecvPubrec(id) => id !in inbound
    case RecvPubcomp(id) => id !in inbound
    case _ => SentId(e).Some? ==> SentId(e).value !in inbound
  }

  ghost predicate DirectedRun(inbound: set<PacketId>, trace: seq<Event>) {
    forall i :: 0 <= i < |trace| ==> Directed(inbound, trace[i])
  }

  predicate IsInbound(e: Event, id: PacketId) {
    e.RecvPublish? && e.publish.qos == EXACTLY_ONCE && e.publish.packetId == id
  }

  /** A QoS 2 PUBLISH arrived after the last PUBREL. */
  predicate PeriodOpen(trace: seq<Event>, id: PacketId) {
    if trace == [] then false
    else
      var last := trace[|trace| - 1];
      IsInbound(last, id) || (last != RecvPubrel(id) && PeriodOpen(trace[..|trace| - 1], id))
  }

  /** The same, counting only the arrivals that found a place in the pool. */
  predicate Recorded(capacity: nat, trace: seq<Event>, id: PacketId) {
    if trace == [] then false
    else
      var before, last := trace[..|trace| - 1], trace[|trace| - 1];
      || (IsInbound(last, id) && |Run([], capacity, before)| < capacity)
      || (last != RecvPubrel(id) && Recorded(capacity, before, id))
  }

  /** No QoS 2 PUBLISH that needs an entry finds the pool full. */
  ghost predicate RoomForInbound(capacity: nat, trace: seq<Event>) {
    forall i :: 0 <= i < |trace| && trace[i].RecvPublish? && trace[i].publish.qos == EXACTLY_ONCE ==>
      Live(Run([], capacity, trace[..i]), trace[i].publish.packetId) || |Run([], capacity, trace[..i])| < capacity
  }

  /** An inbound id is live exactly when a QoS 2 PUBLISH was recorded after the last PUBREL, in any run at all. */
  lemma {:induction false} InboundEntry(inbound: set<PacketId>, capacity: nat, trace: seq<Event>, id: PacketId)
    requires id in inbound && DirectedRun(inbound, trace)
    ensures Single(Run([], capacity, trace), id)
    ensures Held(Run([], capacity, trace), id) == if Recorded(capacity, trace, id) then Some(Pubrec(id)) else None
  {
    if trace != [] {
      var before := trace[..|trace| - 1];
      InboundEntry(inbound, capacity, before, id);
      RunWithinCapacity(capacity, before);
      StepRefinesAutomaton(Run([], capacity, before), capacity, trace[|trace| - 1], id);
    }
  }

  lemma {:induction false} RoomOpensPeriods(inbound: set<PacketId>, capacity: nat, trace: seq<Event>, id: PacketId)
    requires id in inbound && DirectedRun(inbound, trace) && RoomForInbound(capacity, trace)
    ensures Recorded(capacity, trace, id) <==> PeriodOpen(trace, id)
  {
    if trace != [] {
      var before := trace[..|trace| - 1];
      assert forall i :: 0 <= i < |before| ==> before[..i] == trace[..i];
      RoomOpensPeriods(inbound, capacity, before, id);
      InboundEntry(inbound, capacity, before, id);
    }
  }

  /** With room, the callback gets exactly the first PUBLISH of each period, and the entry is live for the period. */
  lemma DeliversFirstOfPeriod(inbound: set<PacketId>, capacity: nat, trace: seq<Event>, a: PublishArgs, h: Heartbeat, budget: nat)
    requires DirectedRun(inbound, trace + [RecvPublish(a)]) && RoomForInbound(capacity, trace)
    requires a.qos == EXACTLY_ONCE
    ensures Live(Run([], capacity, trace), a.packetId) <==> PeriodOpen(trace, a.packetId)
    ensures Notices(Run([], capacity, trace), h, RecvPublish(a), budget)
      == if PeriodOpen(trace, a.packetId) then [] else [MessageReceived(a)]
  {
    assert (trace + [RecvPublish(a)])[|trace|] == RecvPublish(a);
    assert forall i :: 0 <= i < |trace| ==> trace[i] == (trace + [RecvPublish(a)])[i];
    InboundEntry(inbound, capacity, trace, a.packetId);
    RoomOpensPeriods(inbound, capacity, trace, a.packetId);
  }

  /** A full pool breaks exactly this: a repeated copy is suppressed if and only if the first copy found room. */
  lemma DuplicateSuppressedIffRoom(used: seq<Packet>, capacity: nat, a: PublishArgs, h: Heartbeat, budget: nat)
    requires a.qos == EXACTLY_ONCE && !Live(used, a.packetId)
    ensures Notices(SessionAfter(used, capacity, RecvPublish(a)), h, RecvPublish(a), budget) == [] <==> |used| < capacity
  {
    assert (used + [Pubrec(a.packetId)])[|used|] == Pubrec(a.packetId);
  }

  /** In any run at all, the callback gets an arriving QoS 2 PUBLISH if and only if no entry of any kind has its id. */
  lemma DeliveredIffNoEntry(capacity: nat, trace: seq<Event>, a: PublishArgs, h: Heartbeat, budget: nat)
    requires a.qos == EXACTLY_ONCE
    ensures Notices(Run([], capacity, trace), h, RecvPublish(a), budget)
      == if EntriesAfter(capacity, trace, a.packetId) == [] then [MessageReceived(a)] else []
  {
    RunRefinesEntries(capacity, trace, a.packetId);
  }

  /**
   The two directions need disjoint ids: a QoS 2 PUBLISH arriving under the id of an outgoing one is
   answered with PUBREC but never delivered, and its PUBREL drops the outgoing one unacknowledged.
   */
  lemma SharedIdLosesBoth(capacity: nat, sent: PublishArgs, a: PublishArgs, h: Heartbeat, budget: nat)
    requires capacity >= 1 && sent.qos != AT_MOST_ONCE && a.qos == EXACTLY_ONCE && a.packetId == sent.packetId
    ensures Attempts(Run([], capacity, [SendPublish(sent)]), h, RecvPublish(a)) == [Pubrec(a.packetId)]
    ensures Notices(Run([], capacity, [SendPublish(sent)]), h, RecvPublish(a), budget) == []
    ensures Run([], capacity, [SendPublish(sent), RecvPublish(a)]) == [Publish(sent)]
    ensures Run([], capacity, [SendPublish(sent), RecvPublish(a), RecvPubrel(a.packetId)]) == []
  {
    var one, two := [SendPublish(sent)], [SendPublish(sent), RecvPublish(a)];
    var three := [SendPublish(sent), RecvPublish(a), RecvPubrel(a.packetId)];
    assert one[..0] == [] && two[..1] == one && three[..2] == two;
    assert Run([], capacity, one) == [Publish(sent)];
    assert IdOf([Publish(sent)][0]) == a.packetId;
    assert Without([Publish(sent)], a.packetId) == [];
  }

  // ---------- Nothing is forgotten, and order is kept ----------

  /** The events that can take an entry with this id out of the session. */
  predicate Releases(e: Event, id: PacketId) {
    || e in {RecvSuback(id), RecvUnsuback(id), RecvPuback(id), RecvPubrec(id), RecvPubrel(id), RecvPubcomp(id)}
    || (e.SendPublish? && e.publish.qos == AT_MOST_ONCE && e.publish.packetId == id)
  }

  lemma WithoutKeeps(used: seq<Packet>, gone: PacketId, p: Packet)
    requires p in used && IdOf(p) != gone
    ensures p in Without(used, gone)
  {
    var i :| 0 <= i < |used| && used[i] == p;
    var k := FirstWith(used, gone);
    hide FirstWith;
    hide Live;
    if k < |used| {
      var rest := used[..k] + used[k + 1..];
      assert rest[if i < k then i else i - 1] == used[i];
    }
  }

  /** Only the events that release its id can take a packet out. */
  lemma StepKeepsPacket(used: seq<Packet>, capacity: nat, e: Event, p: Packet)
    requires p in used && !Releases(e, IdOf(p))
    ensures p in SessionAfter(used, capacity, e)
  {
    hide Without;
    hide FirstWith;
    hide Live;
    match e
    case SendPublish(a) => if a.qos == AT_MOST_ONCE { WithoutKeeps(Added(used, capacity, Publish(a)), a.packetId, p); }
    case RecvSuback(i) => WithoutKeeps(used, i, p);
    case RecvUnsuback(i) => WithoutKeeps(used, i, p);
    case RecvPuback(i) => WithoutKeeps(used, i, p);
    case RecvPubrec(i) => WithoutKeeps(used, i, p);
    case RecvPubrel(i) => WithoutKeeps(used, i, p);
    case RecvPubcomp(i) => WithoutKeeps(used, i, p);
    case _ =>
  }

  /**
   A stored packet stays, unchanged, through every run without an event that releases its id, and
   every PINGRESP of the run sends it again, unless the network refuses an earlier item.
   */
  lemma {:induction false} StoredPacketSurvives(used: seq<Packet>, capacity: nat, trace: seq<Event>, p: Packet)
    requires p in used
    requires forall i :: 0 <= i < |trace| ==> !Releases(trace[i], IdOf(p))
    ensures p in Run(used, capacity, trace)
    ensures forall h, budget: nat :: budget >= |Run(used, capacity, trace)| ==>
      var frames := Accepted(Attempts(Run(used, capacity, trace), h, RecvPingresp), budget);
      frames == Run(used, capacity, trace) && p in frames
  {
    if trace != [] {
      var before, e := trace[..|trace| - 1], trace[|trace| - 1];
      StoredPacketSurvives(used, capacity, before, p);
      hide SessionAfter;
      hide Releases;
      StepKeepsPacket(Run(used, capacity, before), capacity, e, p);
    }
  }

  /** Where in the run each stored PUBLISH was sent; they are stored in the order they were sent. */
  ghost predicate InSendOrder(used: seq<Packet>, trace: seq<Event>, sentAt: seq<nat>) {
    && |sentAt| == |used|
    && (forall i :: 0 <= i < |used| && used[i].Publish? ==>
          sentAt[i] < |trace| && trace[sentAt[i]] == SendPublish(used[i].publish))
    && (forall i, j :: 0 <= i < j < |used| && used[i].Publish? && used[j].Publish? ==> sentAt[i] < sentAt[j])
  }

  ghost predicate Ordered(used: seq<Packet>, trace: seq<Event>) {
    exists sentAt :: InSendOrder(used, trace, sentAt)
  }

  /** PUBLISH entries, and so their resends, always stay in original send order: no assumption on ids, acknowledgements or room. */
  lemma {:induction false} PublishesStayInSendOrder(capacity: nat, trace: seq<Event>)
    ensures Ordered(Run([], capacity, trace), trace)
  {
    if trace == [] {
      assert InSendOrder([], trace, []);
    } else {
      var before, e := trace[..|trace| - 1], trace[|trace| - 1];
      PublishesStayInSendOrder(capacity, before);
      OrderAfterEvent(Run([], capacity, before), capacity, before, e);
      assert before + [e] == trace;
    }
  }

  lemma OrderAfterEvent(used: seq<Packet>, capacity: nat, before: seq<Event>, e: Event)
    requires Ordered(used, before)
    ensures Ordered(SessionAfter(used, capacity, e), before + [e])
  {
    hide Ordered;
    hide Without;
    hide FirstWith;
    hide Live;
    OrderAfterAdd(used, 0, before, e, Pubrel(0));
    match e
    case SendSubscribe(a) => OrderAfterAdd(used, capacity, before, e, Subscribe(a));
    case SendUnsubscribe(a) => OrderAfterAdd(used, capacity, before, e, Unsubscribe(a));
    case SendPublish(a) =>
      OrderAfterAdd(used, capacity, before, e, Publish(a));
      OrderAfterRemove(Added(used, capacity, Publish(a)), before + [e], a.packetId);
    case RecvPublish(a) => OrderAfterAdd(used, capacity, before, e, Pubrec(a.packetId));
    case RecvPubrec(id) =>
      OrderAfterRemove(used, before, id);
      OrderAfterAdd(Without(used, id), 0, before, e, Pubrel(id));
      OrderAfterAdd(Without(used, id), capacity, before, e, Pubrel(id));
    case RecvSuback(id) => OrderAfterRemove(used, before + [e], id);
    case RecvUnsuback(id) => OrderAfterRemove(used, before + [e], id);
    case RecvPuback(id) => OrderAfterRemove(used, before + [e], id);
    case RecvPubrel(id) => OrderAfterRemove(used, before + [e], id);
    case RecvPubcomp(id) => OrderAfterRemove(used, before + [e], id);
    case _ =>
  }

  lemma OrderAfterAdd(used: seq<Packet>, capacity: nat, before: seq<Event>, e: Event, p: Packet)
    requires Ordered(used, before)
    requires p.Publish? ==> e == SendPublish(p.publish)
    ensures Ordered(Added(used, capacity, p), before + [e])
  {
    var sentAt: seq<nat> :| InSendOrder(used, before, sentAt);
    if Added(used, capacity, p) == used {
      assert InSendOrder(Added(used, capacity, p), before + [e], sentAt);
    } else {
      var more, at := used + [p], sentAt + [|before|];
      assert forall i :: 0 <= i < |used| ==> more[i] == used[i] && at[i] == sentAt[i];
      assert InSendOrder(more, before + [e], at);
    }
  }

  /** The index that position `i` had before position `k` was taken out. */
  function Past(k: nat, i: nat): nat {
    if i < k then i else i + 1
  }

  lemma OrderAfterRemove(used: seq<Packet>, trace: seq<Event>, id: PacketId)
    requires Ordered(used, trace)
    ensures Ordered(Without(used, id), trace)
  {
    var at: seq<nat> :| InSendOrder(used, trace, at);
    var k := FirstWith(used, id);
    hide InSendOrder;
    hide FirstWith;
    hide Live;
    if k < |used| {
      RemovedInOrder(used, trace, at, k);
    } else {
      assert InSendOrder(Without(used, id), trace, at);
    }
  }

  lemma RemovedInOrder(used: seq<Packet>, trace: seq<Event>, at: seq<nat>, k: nat)
    requires InSendOrder(used, trace, at) && k < |used|
    ensures InSendOrder(used[..k] + used[k + 1..], trace, at[..k] + at[k + 1..])
  {
    var rest, there := used[..k] + used[k + 1..], at[..k] + at[k + 1..];
    forall i | 0 <= i < |rest| ensures rest[i] == used[Past(k, i)] && there[i] == at[Past(k, i)] {
    }
    forall i, j | 0 <= i < j < |rest| && rest[i].Publish? && rest[j].Publish? ensures there[i] < there[j] {
      assert at[Past(k, i)] < at[Past(k, j)];
    }
  }

  // ---------- QoS 0 ----------

  ghost predicate NoQos0(used: seq<Packet>) {
    forall i :: 0 <= i < |used| && used[i].Publish? ==> used[i].publish.qos != AT_MOST_ONCE
  }

  /** A QoS 0 publish leaves the session as it was, full or not, exactly when its id is not live. */
  lemma Qos0LeavesNoTraceIffFresh(used: seq<Packet>, capacity: nat, a: PublishArgs)
    requires a.qos == AT_MOST_ONCE && NoQos0(used)
    ensures SessionAfter(used, capacity, SendPublish(a)) == used <==> !Live(used, a.packetId)
  {
    var stored := Added(used, capacity, Publish(a));
    if |used| < capacity {
      assert stored[|used|] == Publish(a);
      if Live(used, a.packetId) {
        assert stored[FirstWith(used, a.packetId)] == used[FirstWith(used, a.packetId)];
        assert Without(stored, a.packetId)[|used| - 1] == Publish(a);
      }
    }
  }

  lemma WithoutKeepsNoQos0(used: seq<Packet>, id: PacketId)
    requires NoQos0(used)
    ensures NoQos0(Without(used, id))
  {
  }

  lemma StepKeepsNoQos0(used: seq<Packet>, capacity: nat, e: Event)
    requires NoQos0(used) && (e.SendPublish? ==> !Live(used, e.publish.packetId))
    ensures NoQos0(SessionAfter(used, capacity, e))
  {
    hide Without;
    hide Live;
    match e
    case SendPublish(a) => if a.qos == AT_MOST_ONCE { Qos0LeavesNoTraceIffFresh(used, capacity, a); }
    case RecvPubrec(id) => WithoutKeepsNoQos0(used, id);
    case RecvSuback(id) => WithoutKeepsNoQos0(used, id);
    case RecvUnsuback(id) => WithoutKeepsNoQos0(used, id);
    case RecvPuback(id) => WithoutKeepsNoQos0(used, id);
    case RecvPubrel(id) => WithoutKeepsNoQos0(used, id);
    case RecvPubcomp(id) => WithoutKeepsNoQos0(used, id);
    case _ =>
  }

  /** Sending only fresh ids keeps QoS 0 publishes out of the session for good. */
  lemma {:induction false} RunHasNoQos0(capacity: nat, trace: seq<Event>)
    requires forall id :: FreshRun(capacity, trace, id)
    ensures NoQos0(Run([], capacity, trace))
  {
    if trace != [] {
      var before, e := trace[..|trace| - 1], trace[|trace| - 1];
      assert forall i :: 0 <= i < |before| ==> before[..i] == trace[..i];
      forall id ensures FreshRun(capacity, before, id) {
        assert FreshRun(capacity, trace, id);
      }
      RunHasNoQos0(capacity, before);
      if e.SendPublish? {
        assert FreshRun(capacity, trace, e.publish.packetId) && before == trace[..|trace| - 1];
      }
      StepKeepsNoQos0(Run([], capacity, before), capacity, e);
    }
  }
}
