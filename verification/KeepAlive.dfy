/** The keep-alive counters over any interleaving of events, for a connection opened with a keep-alive interval K. */
module KeepAlive {
  import opened MqttTypes
  import opened ManagerSpec

  /** A connected client's events: anything but another CONNECT, which starts the counters afresh. */
  ghost predicate Connected(trace: seq<Event>) {
    forall i :: 0 <= i < |trace| ==> !trace[i].SendConnect?
  }

  /** A CONNECT with a keep-alive interval, met by counters in any state. */
  datatype Opening = Opening(left: Heartbeat, connect: ConnectArgs) {
    predicate Timed() {
      connect.keepAlive >= 1
    }

    function K(): nat {
      connect.keepAlive
    }
  }

  /** The counters after the opening CONNECT and then `trace`. */
  function Beats(o: Opening, trace: seq<Event>): Heartbeat {
    if trace == [] then HeartbeatAfter(o.left, SendConnect(o.connect))
    else HeartbeatAfter(Beats(o, trace[..|trace| - 1]), trace[|trace| - 1])
  }

  function TicksSinceReceive(trace: seq<Event>): nat {
    if trace == [] then 0
    else
      var before, e := TicksSinceReceive(trace[..|trace| - 1]), trace[|trace| - 1];
      if IsReceive(e) then 0 else if e.Tick? then before + 1 else before
  }

  /** The event restarts the send interval: it is a counted send, or a tick that attempts a ping. */
  predicate KeepsAlive(o: Opening, before: seq<Event>, e: Event) {
    IsCountedSend(e) || (e.Tick? && Attempts([], Beats(o, before), e) == [Pingreq])
  }

  predicate Expires(o: Opening, before: seq<Event>, e: Event) {
    e.Tick? && Notices([], Beats(o, before), e, 0) == [Disconnected]
  }

  /** Ticks since the last counted send or ping, leaving out ticks that found the connection dead. */
  function TicksSinceSend(o: Opening, trace: seq<Event>): nat {
    if trace == [] then 0
    else
      var before, e := trace[..|trace| - 1], trace[|trace| - 1];
      if KeepsAlive(o, before, e) then 0
      else if e.Tick? && !Expires(o, before, e) then TicksSinceSend(o, before) + 1
      else TicksSinceSend(o, before)
  }

  /** Both counters in closed form after every run; the send counter never rests at zero. */
  lemma {:induction false} CountersInClosedForm(o: Opening, trace: seq<Event>)
    requires o.Timed() && Connected(trace)
    ensures var h, n := Beats(o, trace), TicksSinceReceive(trace);
      && h.resetValue == o.K() && h.stepValue == 1
      && h.recvCounter == (if n < 2 * o.K() then 2 * o.K() - n else 0)
      && h.sendCounter == o.K() - TicksSinceSend(o, trace) >= 1
  {
    if trace != [] {
      CountersInClosedForm(o, trace[..|trace| - 1]);
    }
  }

  /** A tick reports the dead connection exactly when it is at least the 2K-th tick in a row without a receive. */
  lemma ExpiresOnTick2K(o: Opening, trace: seq<Event>)
    requires o.Timed() && Connected(trace)
    ensures Expires(o, trace, Tick) <==> TicksSinceReceive(trace + [Tick]) >= 2 * o.K()
  {
    CountersInClosedForm(o, trace);
    assert (trace + [Tick])[..|trace|] == trace;
  }

  function Ticks(trace: seq<Event>): nat {
    if trace == [] then 0
    else Ticks(trace[..|trace| - 1]) + if trace[|trace| - 1].Tick? then 1 else 0
  }

  /** While the connection is alive, any stretch of a run with K ticks in it holds a counted send or a ping. */
  lemma SendsEveryKTicks(o: Opening, before: seq<Event>, stretch: seq<Event>)
    requires o.Timed() && Connected(before + stretch) && Ticks(stretch) >= o.K()
    requires forall i :: 0 <= i < |stretch| ==> !Expires(o, before + stretch[..i], stretch[i])
    ensures exists i :: 0 <= i < |stretch| && KeepsAlive(o, before + stretch[..i], stretch[i])
  {
    if forall i :: 0 <= i < |stretch| ==> !KeepsAlive(o, before + stretch[..i], stretch[i]) {
      QuietStretch(o, before, stretch);
      CountersInClosedForm(o, before + stretch);
    }
  }

  lemma {:induction false} QuietStretch(o: Opening, before: seq<Event>, stretch: seq<Event>)
    requires forall i :: 0 <= i < |stretch| ==> !Expires(o, before + stretch[..i], stretch[i])
    requires forall i :: 0 <= i < |stretch| ==> !KeepsAlive(o, before + stretch[..i], stretch[i])
    ensures TicksSinceSend(o, before + stretch) == TicksSinceSend(o, before) + Ticks(stretch)
  {
    hide KeepsAlive;
    hide Expires;
    hide Beats;
    if stretch == [] {
      assert before + stretch == before;
    } else {
      var rest := stretch[..|stretch| - 1];
      assert forall i :: 0 <= i < |rest| ==> rest[..i] == stretch[..i];
      QuietStretch(o, before, rest);
      assert (before + stretch)[..|before + stretch| - 1] == before + rest;
    }
  }
}
