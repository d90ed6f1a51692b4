/** The packets and arguments shared by the session store, the manager and the frame codec. */
module MqttTypes {

  type Byte = bv8
  type PacketId = id: int | 0 <= id < 0x1_0000

  /** A string whose length fits the 16-bit `len` of mqtt_string_t. */
  type MqttString = s: seq<Byte> | |s| < 0x1_0000

  const AT_MOST_ONCE: Byte := 0
  const AT_LEAST_ONCE: Byte := 1
  const EXACTLY_ONCE: Byte := 2

  datatype PublishArgs = PublishArgs(
    packetId: PacketId, dup: bool, retain: bool, qos: Byte, topic: MqttString, data: seq<Byte>)

  datatype SubscribeArgs = SubscribeArgs(packetId: PacketId, topicFilter: MqttString, qos: Byte)

  datatype UnsubscribeArgs = UnsubscribeArgs(packetId: PacketId, topicFilter: MqttString)

  datatype ConnectArgs = ConnectArgs(
    version: Byte, keepAlive: PacketId, cleanSession: bool,
    usernameFlag: bool, passwordFlag: bool, willFlag: bool, willQos: Byte, willRetain: bool,
    clientId: MqttString, willTopic: MqttString, willMessage: MqttString,
    username: MqttString, password: MqttString)

  /** What the client puts on the wire.  The five storable kinds are also what a session item holds. */
  datatype Packet =
    | Connect(connect: ConnectArgs)
    | Publish(publish: PublishArgs)
    | Subscribe(subscribe: SubscribeArgs)
    | Unsubscribe(unsubscribe: UnsubscribeArgs)
    | Puback(id: PacketId)
    | Pubrec(id: PacketId)
    | Pubrel(id: PacketId)
    | Pubcomp(id: PacketId)
    | Pingreq

  datatype PacketType =
    | CONNECT | CONNACK | PUBLISH | PUBACK | PUBREC | PUBREL | PUBCOMP
    | SUBSCRIBE | SUBACK | UNSUBSCRIBE | UNSUBACK | PINGREQ | PINGRESP | DISCONNECT

  function TypeOf(p: Packet): PacketType {
    match p
    case Connect(_) => CONNECT
    case Publish(_) => PUBLISH
    case Subscribe(_) => SUBSCRIBE
    case Unsubscribe(_) => UNSUBSCRIBE
    case Puback(_) => PUBACK
    case Pubrec(_) => PUBREC
    case Pubrel(_) => PUBREL
    case Pubcomp(_) => PUBCOMP
    case Pingreq => PINGREQ
  }

  /** The packet id, which every member of the session item's union keeps in its first field. */
  function IdOf(p: Packet): PacketId {
    match p
    case Publish(a) => a.packetId
    case Subscribe(a) => a.packetId
    case Unsubscribe(a) => a.packetId
    case Puback(id) => id
    case Pubrec(id) => id
    case Pubrel(id) => id
    case Pubcomp(id) => id
    case Connect(_) => 0
    case Pingreq => 0
  }

  /** The first `budget` packets: what reaches the wire when the network takes that many. */
  function Accepted(packets: seq<Packet>, budget: nat): seq<Packet> {
    if budget < |packets| then packets[..budget] else packets
  }

  /** CONNECT arguments as the backend fixes them: no password without a username, no will options without a will. */
  function Normalised(a: ConnectArgs): ConnectArgs {
    a.(passwordFlag := a.passwordFlag && a.usernameFlag,
       willRetain := a.willRetain && a.willFlag,
       willQos := if a.willFlag then a.willQos else AT_MOST_ONCE)
  }
}
