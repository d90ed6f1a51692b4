/** The session store as a value: the used items in list order. */
module SessionSpec {
  import opened MqttTypes

  /** The packet types that session items are added, searched and removed under. */
  predicate Tracked(t: PacketType) {
    t in {PUBLISH, SUBSCRIBE, UNSUBSCRIBE, PUBREC, PUBREL}
  }

  predicate Live(used: seq<Packet>, id: PacketId) {
    exists i :: 0 <= i < |used| && IdOf(used[i]) == id
  }

  /** Index of the first item with this packet id, or `|used|`.  The item's own type plays no part. */
  function FirstWith(used: seq<Packet>, id: PacketId): (k: nat)
    ensures k <= |used| && (k < |used| <==> Live(used, id))
    ensures k < |used| ==> IdOf(used[k]) == id
    ensures forall i :: 0 <= i < k ==> IdOf(used[i]) != id
  {
    if used == [] then 0
    else if IdOf(used[0]) == id then 0
    else 1 + FirstWith(used[1..], id)
  }

  function Without(used: seq<Packet>, id: PacketId): seq<Packet> {
    var k := FirstWith(used, id);
    if k < |used| then used[..k] + used[k + 1..] else used
  }

  function Added(used: seq<Packet>, capacity: nat, p: Packet): seq<Packet> {
    if |used| < capacity && Tracked(TypeOf(p)) then used + [p] else used
  }
}
